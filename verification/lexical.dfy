/** The static lexical helpers of Expression: identifiers and function-call
    tokens "name(N)".

    Their bodies are outside this model; they are defined here by the rules
    their callers rely on and their test rows pin down. Characters are ASCII:
    a letter is a Latin letter and a digit is '0'..'9'. */
module Lexical {
  import opened Strings

  /** A character that may appear in an identifier after the first one. */
  predicate IsWordChar(c: char) {
    IsLatinLetter(c) || IsDigit(c) || c == '_'
  }

  predicate IsIdentifierStart(c: char) {
    IsLatinLetter(c) || c == '_'
  }

  /** Non-empty, starts with a Latin letter or '_', and continues with
      Latin letters, digits or '_'. */
  predicate IsIdentifier(s: string) {
    |s| > 0 && IsIdentifierStart(s[0]) && forall i :: 0 <= i < |s| ==> IsWordChar(s[i])
  }

  // ---------------------------------------------------------------------
  // Function-call tokens

  /** Position of the first `c` in `s`, or |s| when there is none. */
  function IndexOf(s: string, c: char): (k: nat)
    ensures k <= |s|
    ensures k < |s| ==> s[k] == c
    ensures Lacks(s[..k], c)
    decreases |s|
  {
    if |s| == 0 then 0
    else if s[0] == c then 0
    else
      var k := 1 + IndexOf(s[1..], c);
      assert s[..k] == [s[0]] + s[1..][..k - 1];
      LacksConcat([s[0]], s[1..][..k - 1], c);
      k
  }

  /** The text before the first '(' (QString::left of indexOf). */
  function CallName(s: string): string {
    s[..IndexOf(s, '(')]
  }

  /** The text between the first '(' and the first ')' that follows it. */
  function CallDigits(s: string): string {
    var open := IndexOf(s, '(');
    if open < |s| then
      var close := open + 1 + IndexOf(s[open + 1..], ')');
      s[open + 1..close]
    else ""
  }

  /** An identifier followed immediately by "(", one unsigned decimal
      number and ")", with nothing after it. */
  predicate IsFunction(s: string) {
    var open := IndexOf(s, '(');
    open < |s| && |s| >= open + 3 && s[|s| - 1] == ')' &&
    IsIdentifier(s[..open]) &&
    AllDigits(s[open + 1..|s| - 1])
  }

  /** A function-call token splits into its name and its numeral. */
  lemma FunctionTokenParts(s: string)
    requires IsFunction(s)
    ensures IsIdentifier(CallName(s))
    ensures |CallDigits(s)| > 0 && AllDigits(CallDigits(s))
    ensures s == CallName(s) + "(" + CallDigits(s) + ")"
  {
    var open := IndexOf(s, '(');
    var inner := s[open + 1..|s| - 1];
    assert Lacks(inner, ')');
    assert s[open + 1..] == inner + ")";
    IndexOfAfterWord(inner, ")", ')');
    assert s == s[..open] + "(" + inner + ")";
  }

  /** Every identifier followed by a parenthesised numeral is a
      function-call token with exactly that name and numeral. */
  lemma FunctionTokenFromParts(name: string, digits: string)
    requires IsIdentifier(name) && |digits| > 0 && AllDigits(digits)
    ensures IsFunction(name + "(" + digits + ")")
    ensures CallName(name + "(" + digits + ")") == name
    ensures CallDigits(name + "(" + digits + ")") == digits
  {
    assert Lacks(name, '(');
    CallTextParts(name, digits);
    var s := name + "(" + digits + ")";
    var close := digits + ")";
    assert s[|name| + 1..] == close;
    assert Lacks(digits, ')');
    IndexOfAfterWord(digits, ")", ')');
  }

  /** The pieces of a name, '(', an argument text and ')' put together. */
  lemma CallTextParts(name: string, inner: string)
    requires Lacks(name, '(')
    ensures var s := name + "(" + inner + ")";
      IndexOf(s, '(') == |name| && |s| == |name| + |inner| + 2 &&
      s[..|name|] == name && s[|name| + 1..|s| - 1] == inner &&
      s[|name| + 1..] == inner + ")" && s[|s| - 1] == ')'
  {
    var close := inner + ")";
    var tail := "(" + close;
    var s := name + tail;
    assert name + "(" + inner + ")" == s by {
      ConcatAssoc(name, "(", inner);
      ConcatAssoc(name, "(" + inner, ")");
      ConcatAssoc("(", inner, ")");
    }
    IndexOfAfterWord(name, tail, '(');
    assert s[|name| + 1..] == close;
    assert s[|name| + 1..|s| - 1] == close[..|inner|];
  }

  lemma {:induction false} IndexOfAfterWord(w: string, y: string, c: char)
    requires Lacks(w, c) && |y| > 0 && y[0] == c
    ensures IndexOf(w + y, c) == |w|
    decreases |w|
  {
    if |w| > 0 {
      assert (w + y)[0] == w[0];
      assert (w + y)[1..] == w[1..] + y;
      IndexOfAfterWord(w[1..], y, c);
    } else {
      assert w + y == y;
    }
  }

  // ---------------------------------------------------------------------
  // The rows of the unit tests

  lemma IdentifierRows()
    ensures IsIdentifier("a") && IsIdentifier("z") && IsIdentifier("V") && IsIdentifier("_")
    ensures IsIdentifier("a0") && IsIdentifier("a9") && IsIdentifier("_z")
    ensures !IsIdentifier("1") && !IsIdentifier("") && !IsIdentifier("$")
    ensures !IsIdentifier("a$") && !IsIdentifier("a$a") && !IsIdentifier("\U{042A}")
  {
    assert !IsWordChar("a$"[1]);
    assert !IsWordChar("a$a"[1]);
  }

  lemma FunctionRowsAccepted()
    ensures var s := "factorial(1)";
      IsFunction(s) && CallName(s) == "factorial" && CallDigits(s) == "1"
    ensures var s := "helloWorld(0)";
      IsFunction(s) && CallName(s) == "helloWorld" && CallDigits(s) == "0"
  {
    var n, d := "factorial", "1";
    assert IsIdentifier(n);
    FunctionTokenFromParts(n, d);
    assert "factorial(1)" == n + "(" + d + ")";
    n, d := "helloWorld", "0";
    assert IsIdentifier(n);
    FunctionTokenFromParts(n, d);
    assert "helloWorld(0)" == n + "(" + d + ")";
  }

  /** Two arguments: the text between the parentheses is not one numeral. */
  lemma FunctionRowTwoArguments(s: string)
    requires s == "sum(3,4)"
    ensures !IsFunction(s)
  {
    NonNumeralArgument("sum", "3,4", 1);
    assert s == "sum" + "(" + "3,4" + ")";
  }

  lemma FunctionRowWordArgument(s: string)
    requires s == "printf(oleg)"
    ensures !IsFunction(s)
  {
    NonNumeralArgument("printf", "oleg", 0);
    assert s == "printf" + "(" + "oleg" + ")";
  }

  /** A space before the parenthesis makes the name no identifier. */
  lemma FunctionRowSpacedName()
    ensures !IsFunction("helloWorld (0)")
  {
    var n := "helloWorld ";
    assert !IsWordChar(n[10]);
    NonIdentifierName(n, "0)");
    assert n + "(" + "0)" == "helloWorld (0)";
  }

  /** A name in Cyrillic letters is no identifier: "факториал(1)". */
  lemma FunctionRowCyrillicName(s: string)
    requires s == "\U{0444}\U{0430}\U{043A}\U{0442}\U{043E}\U{0440}\U{0438}\U{0430}\U{043B}(1)"
    ensures !IsFunction(s)
  {
    var n := "\U{0444}\U{0430}\U{043A}\U{0442}\U{043E}\U{0440}\U{0438}\U{0430}\U{043B}";
    assert !IsIdentifierStart(n[0]);
    NonIdentifierName(n, "1)");
    assert s == n + "(" + "1)";
  }

  /** Text between the parentheses that is not all digits. */
  lemma NonNumeralArgument(name: string, inner: string, k: nat)
    requires Lacks(name, '(') && k < |inner| && !IsDigit(inner[k])
    ensures !IsFunction(name + "(" + inner + ")")
  {
    CallTextParts(name, inner);
  }

  /** Text before the first parenthesis that is not an identifier. */
  lemma NonIdentifierName(name: string, rest: string)
    requires Lacks(name, '(') && !IsIdentifier(name)
    ensures !IsFunction(name + "(" + rest)
  {
    var s := name + "(" + rest;
    assert s == name + ("(" + rest);
    IndexOfAfterWord(name, "(" + rest, '(');
    assert s[..|name|] == name;
  }

  lemma FunctionRowNoName()
    ensures !IsFunction("(3)")
  {
    assert "(3)"[0] == '(';
  }

  lemma FunctionRowNoParentheses()
    ensures !IsFunction("helloWorld") && !IsFunction("")
  {
    var s := "helloWorld";
    assert Lacks(s, '(');
  }
}
