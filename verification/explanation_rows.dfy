/** The rows of the getExplanation test table, each derived from the
    general lemmas about the source's loop. Where a row's arguments play no
    part beyond being copied, the lemma states it for every argument. A
    description is written split at its placeholders ("{1}" + " world!" for
    "{1} world!"), which is the same text. */
module ExplanationRows {
  import opened Wrappers
  import opened Strings
  import opened Placeholders
  import opened Errors
  import opened Translator
  import opened Templates
  import opened Explanations

  // ---------------------------------------------------------------------
  // Texts of the pieces lists used below, without Render in the way

  lemma RenderArg(x: nat)
    ensures Render([Arg(x)]) == Canonical(x)
  {
    assert [Arg(x)][1..] == [];
    var c := Canonical(x);
    assert c + "" == c;
  }

  lemma RenderTextArg(t: string, x: nat)
    ensures Render([Text(t), Arg(x)]) == t + Canonical(x)
  {
    assert [Text(t), Arg(x)][1..] == [Arg(x)];
    RenderArg(x);
  }

  lemma RenderArgText(x: nat, t: string)
    ensures Render([Arg(x), Text(t)]) == Canonical(x) + t
  {
    assert [Arg(x), Text(t)][1..] == [Text(t)] && [Text(t)][1..] == [];
    assert t + "" == t;
    assert Render([Text(t)]) == t;
  }

  lemma RenderArgTextArg(x: nat, t: string, y: nat)
    ensures Render([Arg(x), Text(t), Arg(y)]) == Canonical(x) + t + Canonical(y)
  {
    assert [Arg(x), Text(t), Arg(y)][1..] == [Text(t), Arg(y)];
    RenderTextArg(t, y);
    ConcatAssoc(Canonical(x), t, Canonical(y));
  }

  lemma RenderTextTextArg(a: string, t: string, y: nat)
    ensures Render([Text(a), Text(t), Arg(y)]) == a + t + Canonical(y)
  {
    assert [Text(a), Text(t), Arg(y)][1..] == [Text(t), Arg(y)];
    RenderTextArg(t, y);
    ConcatAssoc(a, t, Canonical(y));
  }

  // ---------------------------------------------------------------------
  // The pieces lists' well-formedness and values

  lemma ArgTextArgPieces(x: nat, t: string, y: nat)
    requires 1 <= x <= IntMax && 1 <= y <= IntMax && Lacks(t, '{')
    ensures WellFormedPieces([Arg(x), Text(t), Arg(y)])
    ensures MaxArg([Arg(x), Text(t), Arg(y)]) == if x > y then x else y
  {
    PiecesCons(Arg(y), []);
    PiecesCons(Text(t), [Arg(y)]);
    PiecesCons(Arg(x), [Text(t), Arg(y)]);
    assert [Arg(y)] + [] == [Arg(y)] && [Text(t)] + [Arg(y)] == [Text(t), Arg(y)];
    assert [Arg(x)] + [Text(t), Arg(y)] == [Arg(x), Text(t), Arg(y)];
  }

  lemma ArgValue(y: nat, args: seq<string>)
    requires 1 <= y <= |args| && y <= IntMax
    ensures WellFormedPieces([Arg(y)]) && MaxArg([Arg(y)]) == y
    ensures Instantiate([Arg(y)], args) == args[y - 1]
  {
    InstantiatePrepend(Arg(y), [], args);
    assert [Arg(y)] + [] == [Arg(y)];
    var u := args[y - 1];
    assert u + "" == u;
  }

  lemma TextArgValue(t: string, y: nat, args: seq<string>)
    requires 1 <= y <= |args| && y <= IntMax && Lacks(t, '{')
    ensures WellFormedPieces([Text(t), Arg(y)]) && MaxArg([Text(t), Arg(y)]) == y
    ensures Instantiate([Text(t), Arg(y)], args) == t + args[y - 1]
  {
    ArgValue(y, args);
    InstantiatePrepend(Text(t), [Arg(y)], args);
    assert [Text(t)] + [Arg(y)] == [Text(t), Arg(y)];
  }

  lemma ArgTextValue(x: nat, t: string, args: seq<string>)
    requires 1 <= x <= |args| && x <= IntMax && Lacks(t, '{')
    ensures WellFormedPieces([Arg(x), Text(t)]) && MaxArg([Arg(x), Text(t)]) == x
    ensures Instantiate([Arg(x), Text(t)], args) == args[x - 1] + t
  {
    InstantiatePrepend(Text(t), [], args);
    var tail := [Text(t)];
    assert [Text(t)] + [] == tail;
    assert t + "" == t;
    InstantiatePrepend(Arg(x), tail, args);
    assert [Arg(x)] + tail == [Arg(x), Text(t)];
  }

  lemma ArgTextArgValue(x: nat, t: string, y: nat, args: seq<string>)
    requires 1 <= x <= |args| && 1 <= y <= |args| && x <= IntMax && y <= IntMax && Lacks(t, '{')
    requires WellFormedPieces([Arg(x), Text(t), Arg(y)]) && MaxArg([Arg(x), Text(t), Arg(y)]) <= |args|
    ensures Instantiate([Arg(x), Text(t), Arg(y)], args) == args[x - 1] + (t + args[y - 1])
  {
    TextArgValue(t, y, args);
    var ps := [Text(t), Arg(y)];
    assert [Arg(x)] + ps == [Arg(x), Text(t), Arg(y)];
    InstantiateCons(Arg(x), ps, args);
  }

  // ---------------------------------------------------------------------
  // The shapes the rows' descriptions take

  /** A description that is one placeholder {x}: the source puts argument x
      in its place, whatever that argument holds, or throws when there is
      no argument x. */
  lemma OnePlaceholderLoop(x: nat, args: seq<string>)
    requires 1 <= x <= IntMax
    ensures GetExplanation(Canonical(x), args) ==
      if x <= |args| then Success(args[x - 1])
      else Failure(Raise(MissingReplacementArguments, [Canonical(x)]))
  {
    var c := Canonical(x);
    assert c + "" == c;
    ScanCanonical(x, "");
    NoBraceNoMatch("");
    assert [ArgMatch(x)] + [] == [ArgMatch(x)];
    ExplainArg(c, x, [], args);
    if x <= |args| {
      var a := args[x - 1];
      ReplaceAllAtFront("", c, a);
      ReplaceAllShort("", c, a);
      assert a + "" == a;
    }
  }

  lemma ArgTextShape(x: nat, t: string, args: seq<string>)
    requires 1 <= x <= |args| && x <= IntMax && Lacks(t, '{') && NoBraceArgs(args)
    ensures GetExplanation(Canonical(x) + t, args) == Success(args[x - 1] + t)
  {
    ArgTextValue(x, t, args);
    TemplateExplanation([Arg(x), Text(t)], args);
    RenderArgText(x, t);
  }

  lemma TextArgShape(t: string, x: nat, args: seq<string>)
    requires 1 <= x <= |args| && x <= IntMax && Lacks(t, '{') && NoBraceArgs(args)
    ensures GetExplanation(t + Canonical(x), args) == Success(t + args[x - 1])
  {
    TextArgValue(t, x, args);
    TemplateExplanation([Text(t), Arg(x)], args);
    RenderTextArg(t, x);
  }

  lemma ArgTextArgShape(x: nat, t: string, y: nat, args: seq<string>)
    requires 1 <= x <= |args| && 1 <= y <= |args| && x <= IntMax && y <= IntMax && Lacks(t, '{') && NoBraceArgs(args)
    ensures GetExplanation(Canonical(x) + t + Canonical(y), args) == Success(args[x - 1] + (t + args[y - 1]))
  {
    ArgTextArgPieces(x, t, y);
    ArgTextArgValue(x, t, y, args);
    TemplateExplanation([Arg(x), Text(t), Arg(y)], args);
    RenderArgTextArg(x, t, y);
  }

  lemma ArgTextArgMatches(x: nat, t: string, y: nat)
    ensures ArgMatches([Arg(x), Text(t), Arg(y)]) == [ArgMatch(x), ArgMatch(y)]
  {
    var ps := [Arg(x), Text(t), Arg(y)];
    assert ps[1..] == [Text(t), Arg(y)] && ps[1..][1..] == [Arg(y)] && ps[1..][1..][1..] == [];
    assert ArgMatches([Arg(y)]) == [ArgMatch(y)] + [];
    assert ArgMatches([Text(t), Arg(y)]) == [] + [ArgMatch(y)];
  }

  lemma ArgTextArgSubst(x: nat, t: string, y: nat, a: string)
    requires x != y
    ensures SubstArg([Arg(x), Text(t), Arg(y)], x, [Text(a)]) == [Text(a), Text(t), Arg(y)]
  {
    var ps := [Arg(x), Text(t), Arg(y)];
    assert ps[1..] == [Text(t), Arg(y)] && ps[1..][1..] == [Arg(y)] && ps[1..][1..][1..] == [];
    assert SubstArg([Arg(y)], x, [Text(a)]) == [Arg(y)] + [];
    assert SubstArg([Text(t), Arg(y)], x, [Text(a)]) == [Text(t)] + [Arg(y)];
  }

  /** The matches the source finds in "{x}<text>{y}": {x}, then {y}. */
  lemma TwoPlaceholderScan(x: nat, t: string, y: nat)
    requires 1 <= x <= IntMax && 1 <= y <= IntMax && Lacks(t, '{')
    ensures AllMatches([ArgMatch(y)]) && AllMatches([ArgMatch(x)] + [ArgMatch(y)])
    ensures Scan(Canonical(x) + t + Canonical(y)) == [ArgMatch(x)] + [ArgMatch(y)]
  {
    TwoArgMatches(x, y);
    var ps := [Arg(x), Text(t), Arg(y)];
    ArgTextArgPieces(x, t, y);
    ScanRendered(ps);
    ArgTextArgMatches(x, t, y);
    RenderArgTextArg(x, t, y);
    assert [ArgMatch(x), ArgMatch(y)] == [ArgMatch(x)] + [ArgMatch(y)];
  }

  lemma TwoArgMatches(x: nat, y: nat)
    requires 1 <= x <= IntMax && 1 <= y <= IntMax
    ensures AllMatches([ArgMatch(y)]) && AllMatches([ArgMatch(x)] + [ArgMatch(y)])
  {
    ArgMatchResolves(y, []);
    ConsMatches(ArgMatch(y), []);
    assert [ArgMatch(y)] + [] == [ArgMatch(y)];
    ArgMatchResolves(x, []);
    ConsMatches(ArgMatch(x), [ArgMatch(y)]);
  }

  /** Replacing {x} in "{x}<text>{y}" by a text a gives a + text + "{y}". */
  lemma TwoPlaceholderFirst(x: nat, t: string, y: nat, a: string)
    requires 1 <= x <= IntMax && 1 <= y <= IntMax && x != y && Lacks(t, '{')
    ensures ReplaceAll(Canonical(x) + t + Canonical(y), Canonical(x), a) == a + t + Canonical(y)
  {
    var ps := [Arg(x), Text(t), Arg(y)];
    ArgTextArgPieces(x, t, y);
    assert Render([Text(a)]) == a by {
      assert [Text(a)][1..] == [];
      assert a + "" == a;
    }
    ReplaceInRendered(ps, x, [Text(a)]);
    ArgTextArgSubst(x, t, y, a);
    RenderTextTextArg(a, t, y);
    RenderArgTextArg(x, t, y);
  }

  /** The source's loop on "{x}<text>{y}" with x and y different and
      argument x present: it first replaces {x} by argument x, then looks
      for {y} in the result, the inserted argument included. */
  lemma TwoPlaceholderLoop(x: nat, t: string, y: nat, args: seq<string>)
    requires 1 <= x <= IntMax && 1 <= y <= IntMax && x != y && Lacks(t, '{') && x <= |args|
    ensures var first := args[x - 1] + t + Canonical(y);
      GetExplanation(Canonical(x) + t + Canonical(y), args) ==
        if y <= |args| then Success(ReplaceAll(first, Canonical(y), args[y - 1]))
        else Failure(Raise(MissingReplacementArguments, [first]))
  {
    var d := Canonical(x) + t + Canonical(y);
    TwoPlaceholderScan(x, t, y);
    ExplainArg(d, x, [ArgMatch(y)], args);
    TwoPlaceholderFirst(x, t, y, args[x - 1]);
    var first := args[x - 1] + t + Canonical(y);
    assert [ArgMatch(y)] + [] == [ArgMatch(y)];
    ExplainArg(first, y, [], args);
  }

  /** "{x}<text>{x}" with {x} replaced by a: both occurrences go. */
  lemma ReplaceBoth(n: nat, t: string, a: string)
    requires Lacks(t, '{')
    ensures ReplaceAll(Canonical(n) + t + Canonical(n), Canonical(n), a) == a + (t + a)
  {
    var c := Canonical(n);
    ConcatAssoc(c, t, c);
    ReplaceAllAtFront(t + c, c, a);
    ReplaceAllSkipsPrefix(t, c, c, a);
    assert c + "" == c;
    ReplaceAllAtFront("", c, a);
    assert ReplaceAll("", c, a) == "";
    assert a + "" == a;
  }

  /** The single pass on "{x}<text>{y}" reads each placeholder once, so the
      arguments' own braces stay as they are. */
  lemma ArgTextArgSinglePass(x: nat, t: string, y: nat, args: seq<string>)
    requires 1 <= x <= |args| && 1 <= y <= |args| && x <= IntMax && y <= IntMax && Lacks(t, '{')
    ensures GetExplanationSinglePass(Canonical(x) + t + Canonical(y), args) ==
      Success(args[x - 1] + (t + args[y - 1]))
  {
    ArgTextArgPieces(x, t, y);
    ArgTextArgValue(x, t, y, args);
    FillRendered([Arg(x), Text(t), Arg(y)], args);
    RenderArgTextArg(x, t, y);
  }

  /** "{" and a digit followed by another '{' open no placeholder: the scan
      moves past them. */
  lemma OpenNone(s: string)
    requires |s| >= 3 && s[0] == '{' && IsDigit(s[1]) && s[2] == '{'
    ensures PlaceholderAt(s).None?
  {
    assert DigitsFrom(s, 2) == 2;
    assert DigitsFrom(s, 1) == 2;
  }

  lemma OpenSkip(s: string)
    requires |s| >= 3 && s[0] == '{' && IsDigit(s[1]) && s[2] == '{'
    ensures Scan(s) == Scan(s[2..])
  {
    OpenNone(s);
    ScanStep(s);
    var r := s[1..];
    assert r[0] == s[1] && r[1..] == s[2..];
    ScanStep(r);
  }

  lemma OpenScan(p: char, y: string)
    requires IsDigit(p) && |y| > 0 && y[0] == '{'
    ensures Scan(['{', p] + y) == Scan(y)
  {
    var s := ['{', p] + y;
    OpenSkip(s);
    assert s[2..] == y;
  }

  /** Nor does a replacement of a placeholder text find one there. */
  lemma OpenReplace(p: char, y: string, n: nat, after: string)
    requires p != '{' && |y| > 0 && y[0] == '{'
    ensures ReplaceAll(['{', p] + y, Canonical(n), after) == ['{', p] + ReplaceAll(y, Canonical(n), after)
  {
    var c := Canonical(n);
    var s := ['{', p] + y;
    assert c[0] == '{' && c[2] != '{' by {
      CanonicalIsPlaceholder(n);
      assert c[1..][1] == c[2];
    }
    assert s[1..] == [p] + y;
    ReplaceAllSkipsPrefix([p], y, c, after);
    if |s| < |c| {
      ReplaceAllShort(s, c, after);
      ReplaceAllShort(y, c, after);
    } else {
      assert s[..|c|][2] == s[2] == '{';
      assert ReplaceAll(s, c, after) == [s[0]] + ReplaceAll(s[1..], c, after);
    }
    assert ['{'] + ([p] + ReplaceAll(y, c, after)) == ['{', p] + ReplaceAll(y, c, after);
  }

  /** The source's loop on "{p{q{n}<text>" with digits p and q: only {n} is
      a match, and only it is replaced. */
  lemma NestedShape(p: char, q: char, n: nat, z: string, args: seq<string>)
    requires IsDigit(p) && IsDigit(q) && 1 <= n <= |args| && n <= IntMax && Lacks(z, '{')
    ensures GetExplanation(['{', p] + (['{', q] + (Canonical(n) + z)), args) ==
      Success(['{', p] + (['{', q] + (args[n - 1] + z)))
  {
    var c := Canonical(n);
    var y2 := c + z;
    var y1 := ['{', q] + y2;
    var s := ['{', p] + y1;
    assert c[0] == '{' && y2[0] == '{' && y1[0] == '{';
    OpenScan(p, y1);
    OpenScan(q, y2);
    ScanCanonical(n, z);
    NoBraceNoMatch(z);
    assert [ArgMatch(n)] + [] == [ArgMatch(n)];
    ExplainArg(s, n, [], args);
    var a := args[n - 1];
    OpenReplace(p, y1, n, a);
    OpenReplace(q, y2, n, a);
    ReplaceAllAtFront(z, c, a);
    ReplaceAllAbsent(z, c, a);
  }

  // ---------------------------------------------------------------------
  // The rows

  /** "{1}" with any one argument gives that argument, whatever it holds:
      "hello" gives "hello", "{1}" gives "{1}", "{1} {1}" gives "{1} {1}",
      and "" gives "". */
  lemma SinglePlaceholderRow(d: string, a: string)
    requires d == "{1}"
    ensures GetExplanation(d, [a]) == Success(a)
  {
    assert Canonical(1) == "{1}";
    OnePlaceholderLoop(1, [a]);
  }

  /** Text without a numbered placeholder comes back unchanged, whatever
      the arguments: "hello". */
  lemma NoPlaceholderRow(d: string, args: seq<string>)
    requires d == "hello"
    ensures GetExplanation(d, args) == Success(d)
  {
    assert Lacks(d, '{');
    NoMatchUnchanged(d, args);
  }

  /** "{hello}" is no placeholder and comes back unchanged. */
  lemma InvalidPlaceholderRow(d: string, args: seq<string>)
    requires d == "{hello}"
    ensures GetExplanation(d, args) == Success(d)
  {
    assert PlaceholderAt(d).None? by {
      assert SpacesFrom(d, 1) == 1 && DigitsFrom(d, 1) == 1;
    }
    ScanStep(d);
    assert Lacks(d[1..], '{');
    NoBraceNoMatch(d[1..]);
    NoMatchUnchanged(d, args);
  }

  /** The empty text with no arguments gives the empty text. */
  lemma EmptyRow(d: string)
    requires d == ""
    ensures GetExplanation(d, []) == Success("")
  {
    NoMatchUnchanged(d, []);
  }

  /** "{1} world!" with ["hello"] gives "hello world!". */
  lemma TextAfterRow(d: string, a: string)
    requires d == "{1}" + " world!" && Lacks(a, '{')
    ensures GetExplanation(d, [a]) == Success(a + " world!")
  {
    assert Canonical(1) == "{1}";
    assert NoBraceArgs([a]);
    ArgTextShape(1, " world!", [a]);
  }

  /** "hello{1}" with ["world!"] gives "helloworld!". */
  lemma TextBeforeRow(d: string, a: string)
    requires d == "hello" + "{1}" && Lacks(a, '{')
    ensures GetExplanation(d, [a]) == Success("hello" + a)
  {
    assert Canonical(1) == "{1}";
    assert NoBraceArgs([a]);
    TextArgShape("hello", 1, [a]);
  }

  /** "{1}world!" with ["hello"] gives "helloworld!": nothing is put
      between the argument and the text that follows the placeholder. */
  lemma TextAdjacentRow(d: string, a: string)
    requires d == "{1}" + "world!" && Lacks(a, '{')
    ensures GetExplanation(d, [a]) == Success(a + d[3..])
  {
    assert Canonical(1) == "{1}";
    assert NoBraceArgs([a]);
    ArgTextShape(1, "world!", [a]);
    assert d[3..] == "world!";
  }

  /** "{2}" with ["hello", "world!"] gives "world!", whatever the arguments
      hold. */
  lemma SecondPlaceholderRow(d: string, a: string, b: string)
    requires d == "{2}"
    ensures GetExplanation(d, [a, b]) == Success(b)
  {
    assert Canonical(2) == "{2}";
    OnePlaceholderLoop(2, [a, b]);
  }

  /** "{2} {1}" with ["hello", "world!"] gives "world! hello". */
  lemma ReversedRow(d: string, a: string, b: string)
    requires d == "{2}" + " " + "{1}" && Lacks(a, '{') && Lacks(b, '{')
    ensures GetExplanation(d, [a, b]) == Success(b + (" " + a))
  {
    assert Canonical(1) == "{1}" && Canonical(2) == "{2}";
    assert NoBraceArgs([a, b]);
    ArgTextArgShape(2, " ", 1, [a, b]);
  }

  /** "{1} {1}" with ["hello!"] gives "hello! hello!". */
  lemma RepeatedRow(d: string, a: string)
    requires d == "{1}" + " " + "{1}" && Lacks(a, '{')
    ensures GetExplanation(d, [a]) == Success(a + (" " + a))
  {
    assert Canonical(1) == "{1}";
    assert NoBraceArgs([a]);
    ArgTextArgShape(1, " ", 1, [a]);
  }

  /** "{1} {3}" with ["{2}", "{4}"] throws MissingReplacementArguments,
      carrying the pattern as it stood after {1} was replaced: "{2} {3}".
      The second argument plays no part. */
  lemma MissingArgumentsRow(d: string, b: string)
    requires d == "{1}" + " " + "{3}"
    ensures GetExplanation(d, ["{2}", b]) == Failure(Raise(MissingReplacementArguments, ["{2}" + " " + "{3}"]))
  {
    assert Canonical(1) == "{1}" && Canonical(3) == "{3}";
    TwoPlaceholderLoop(1, " ", 3, ["{2}", b]);
  }

  /** "{1} {2}" with ["{2}", "hello"] gives "hello hello" in the source: the
      first turn writes "{2}" into the pattern, and the second turn replaces
      it along with the original {2}. The test table expects "{2} hello". */
  lemma MixedRow(d: string, b: string)
    requires d == "{1}" + " " + "{2}"
    ensures GetExplanation(d, ["{2}", b]) == Success(b + (" " + b))
  {
    assert Canonical(1) == "{1}" && Canonical(2) == "{2}";
    TwoPlaceholderLoop(1, " ", 2, ["{2}", b]);
    ReplaceBoth(2, " ", b);
  }

  /** The same row read as one pass gives what the test table expects. */
  lemma MixedSinglePassRow(d: string, b: string)
    requires d == "{1}" + " " + "{2}"
    ensures GetExplanationSinglePass(d, ["{2}", b]) == Success("{2}" + (" " + b))
  {
    assert Canonical(1) == "{1}" && Canonical(2) == "{2}";
    ArgTextArgSinglePass(1, " ", 2, ["{2}", b]);
  }

  /** "{3{2{1}}}" with ["", "", "hello!"] gives "{3{2}}": only "{1}" is a
      placeholder, and the "{2}" its replacement leaves behind is not
      looked for again. Stated for any arguments. */
  lemma NestedRow(d: string, a: string, b: string, c: string)
    requires d == "{3" + ("{2" + ("{1}" + "}}"))
    ensures GetExplanation(d, [a, b, c]) == Success("{3" + ("{2" + (a + "}}")))
  {
    assert Canonical(1) == "{1}";
    assert "{3" == ['{', '3'] && "{2" == ['{', '2'];
    NestedShape('3', '2', 1, "}}", [a, b, c]);
  }
}
