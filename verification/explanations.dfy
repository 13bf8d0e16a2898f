/** What getExplanation makes of the operators' templates: a template
    written as pieces explains successfully exactly when there are as many
    arguments as its highest placeholder, and then the explanation is the
    template with each placeholder read as the argument it names. */
module Explanations {
  import opened Wrappers
  import opened Strings
  import opened CodeEntity
  import opened Placeholders
  import opened Errors
  import opened Translator
  import opened Templates

  /** A piece read with the arguments: text as itself, {n} as argument n. */
  function PieceValue(p: Piece, args: seq<string>): string
    requires p.Arg? ==> 1 <= p.n <= |args|
  {
    match p
    case Text(t) => t
    case Arg(n) => args[n - 1]
  }

  /** The template with every placeholder {n} read as argument n. */
  function Instantiate(ps: seq<Piece>, args: seq<string>): string
    requires WellFormedPieces(ps) && MaxArg(ps) <= |args|
    decreases |ps|
  {
    if |ps| == 0 then "" else PieceValue(ps[0], args) + Instantiate(ps[1..], args)
  }

  lemma InstantiateCons(p: Piece, ps: seq<Piece>, args: seq<string>)
    requires WellFormedPieces([p] + ps) && MaxArg([p] + ps) <= |args|
    ensures PieceOk(p) && WellFormedPieces(ps) && MaxArg(ps) <= |args|
    ensures Instantiate([p] + ps, args) == PieceValue(p, args) + Instantiate(ps, args)
  {
    PiecesCons(p, ps);
    assert ([p] + ps)[0] == p && ([p] + ps)[1..] == ps;
  }

  /** The same step read forwards: a well-formed piece put in front. */
  lemma InstantiatePrepend(p: Piece, ps: seq<Piece>, args: seq<string>)
    requires PieceOk(p) && (p.Arg? ==> p.n <= |args|) && WellFormedPieces(ps) && MaxArg(ps) <= |args|
    ensures WellFormedPieces([p] + ps) && MaxArg([p] + ps) <= |args|
    ensures Instantiate([p] + ps, args) == PieceValue(p, args) + Instantiate(ps, args)
  {
    PiecesCons(p, ps);
    InstantiateCons(p, ps, args);
  }

  predicate NoBraceArgs(args: seq<string>) {
    forall k :: 0 <= k < |args| ==> Lacks(args[k], '{')
  }

  /** A character other than '{' is copied by the single pass. */
  lemma FillOther(c: char, z: string, args: seq<string>)
    requires c != '{'
    ensures Fill([c] + z, args) == Prepend([c], Fill(z, args))
  {
    assert ([c] + z)[1..] == z;
  }

  lemma PrependTwice(a: string, b: string, r: Result<string, TEException>)
    ensures Prepend(a, Prepend(b, r)) == Prepend(a + b, r)
  {
    if r.Success? {
      assert a + (b + r.value) == (a + b) + r.value;
    }
  }

  /** Text without '{' is copied by the single pass as it stands. */
  lemma {:induction false} FillPlain(x: string, y: string, args: seq<string>)
    requires Lacks(x, '{')
    ensures Fill(x + y, args) == Prepend(x, Fill(y, args))
    decreases |x|
  {
    if |x| > 0 {
      assert x + y == [x[0]] + (x[1..] + y);
      FillOther(x[0], x[1..] + y, args);
      FillPlain(x[1..], y, args);
      PrependTwice([x[0]], x[1..], Fill(y, args));
      assert [x[0]] + x[1..] == x;
    } else {
      assert x == [] && x + y == y;
      var r := Fill(y, args);
      if r.Success? {
        assert x + r.value == r.value;
      }
    }
  }

  /** The single pass reads placeholder {n} as argument n, and fails when
      there is no argument n. */
  lemma FillCanonical(n: nat, y: string, args: seq<string>)
    requires 1 <= n <= IntMax
    ensures n <= |args| ==> Fill(Canonical(n) + y, args) == Prepend(args[n - 1], Fill(y, args))
    ensures n > |args| ==> Fill(Canonical(n) + y, args).Failure?
  {
    CanonicalHead(n, y);
    var s := Canonical(n) + y;
    var p := PlaceholderAt(s).value;
    assert Resolves(p, args) <==> n <= |args|;
  }

  /** A canonical placeholder at the head of a text is matched whole and
      names argument n. */
  lemma CanonicalHead(n: nat, y: string)
    requires 1 <= n <= IntMax
    ensures PlaceholderAt(Canonical(n) + y).Some?
    ensures PlaceholderAt(Canonical(n) + y).value.text == Canonical(n)
    ensures ArgIndex(PlaceholderAt(Canonical(n) + y).value) == n - 1
    ensures (Canonical(n) + y)[|Canonical(n)|..] == y
  {
    var pt := Canonical(n);
    CanonicalIsPlaceholder(n);
    PlaceholderAtFront(pt, y);
    ToIntOfNat(n);
  }


  /** The single pass over a rendered template succeeds exactly when every
      placeholder has its argument, and then gives the instantiation. */
  lemma {:induction false} FillRendered(ps: seq<Piece>, args: seq<string>)
    requires WellFormedPieces(ps)
    ensures Fill(Render(ps), args).Success? <==> MaxArg(ps) <= |args|
    ensures MaxArg(ps) <= |args| ==> Fill(Render(ps), args) == Success(Instantiate(ps, args))
    decreases |ps|
  {
    if |ps| > 0 {
      var rest := ps[1..];
      FillRendered(rest, args);
      assert Render(ps) == PieceText(ps[0]) + Render(rest);
      match ps[0]
      case Text(t) =>
        FillPlain(t, Render(rest), args);
      case Arg(n) =>
        FillCanonical(n, Render(rest), args);
    }
  }

  /** Every '{' of a rendered template opens one of its placeholders. */
  lemma {:induction false} RenderWellBraced(ps: seq<Piece>)
    requires WellFormedPieces(ps)
    ensures WellBraced(Render(ps))
    decreases |ps|
  {
    if |ps| == 0 {
      NoBraceNoMatch("");
    } else {
      RenderWellBraced(ps[1..]);
      match ps[0]
      case Text(t) =>
        WellBracedAfterPlain(t, Render(ps[1..]));
      case Arg(n) =>
        CanonicalIsPlaceholder(n);
        WellBracedAfterPlaceholder(Canonical(n), Render(ps[1..]));
    }
  }

  /** getExplanation on a well-formed template: it succeeds exactly when
      there are at least as many arguments as the highest placeholder, a
      failure is MissingReplacementArguments, and with arguments holding no
      '{' the explanation is the instantiated template. */
  lemma TemplateExplanation(ps: seq<Piece>, args: seq<string>)
    requires WellFormedPieces(ps)
    ensures GetExplanation(Render(ps), args).Success? <==> MaxArg(ps) <= |args|
    ensures GetExplanation(Render(ps), args).Failure? ==>
      GetExplanation(Render(ps), args).error.errorType == MissingReplacementArguments
    ensures MaxArg(ps) <= |args| && NoBraceArgs(args) ==>
      GetExplanation(Render(ps), args) == Success(Instantiate(ps, args))
  {
    var d := Render(ps);
    FillRendered(ps, args);
    FillSucceedsIff(d, args);
    GetExplanationSucceedsIff(d, args);
    if MaxArg(ps) <= |args| && NoBraceArgs(args) {
      RenderWellBraced(ps);
      SequentialIsSinglePass(d, args);
    }
  }

  /** An operation's explanation needs two arguments when it is binary,
      one when it is unary, and none when the table has no entry for it. */
  lemma OperationExplanation(op: OperationType, args: seq<string>)
    ensures IsBinaryKind(op) ==> (GetExplanation(TemplateText(op), args).Success? <==> |args| >= 2)
    ensures IsUnaryKind(op) ==> (GetExplanation(TemplateText(op), args).Success? <==> |args| >= 1)
    ensures !IsBinaryKind(op) && !IsUnaryKind(op) ==> GetExplanation(TemplateText(op), args) == Success("")
  {
    TemplateArity(op);
    if IsBinaryKind(op) || IsUnaryKind(op) {
      TemplateExplanation(Pieces(Templates.Template(op)), args);
    } else {
      NoMatchUnchanged("", args);
    }
  }

  // ---------------------------------------------------------------------
  // The source's loop over a rendered template, step by step

  /** The match of placeholder {n}: its text and its numeral. */
  function ArgMatch(n: nat): Placeholder {
    Placeholder(Canonical(n), NatToString(n))
  }

  /** The matches of a template's placeholders, in order. */
  function ArgMatches(ps: seq<Piece>): seq<Placeholder>
    decreases |ps|
  {
    if |ps| == 0 then []
    else
      var head := match ps[0] case Text(_) => [] case Arg(n) => [ArgMatch(n)];
      head + ArgMatches(ps[1..])
  }

  /** Each placeholder {n} with a valid n, with any text in place of others. */
  function SubstArg(ps: seq<Piece>, n: nat, q: seq<Piece>): seq<Piece>
    decreases |ps|
  {
    if |ps| == 0 then []
    else (if ps[0] == Arg(n) then q else [ps[0]]) + SubstArg(ps[1..], n, q)
  }

  lemma {:induction false} ScanPlain(x: string, y: string)
    requires Lacks(x, '{')
    ensures Scan(x + y) == Scan(y)
    decreases |x|
  {
    if |x| > 0 {
      assert (x + y)[1..] == x[1..] + y;
      ScanStep(x + y);
      ScanPlain(x[1..], y);
    } else {
      assert x + y == y;
    }
  }

  lemma ScanCanonical(n: nat, y: string)
    ensures Scan(Canonical(n) + y) == [ArgMatch(n)] + Scan(y)
  {
    CanonicalIsPlaceholder(n);
    PlaceholderAtFront(Canonical(n), y);
    ScanStep(Canonical(n) + y);
  }

  lemma RenderSplit(ps: seq<Piece>)
    requires |ps| > 0
    ensures Render(ps) == PieceText(ps[0]) + Render(ps[1..])
  {
  }

  /** The matches the source finds in a rendered template are exactly its
      placeholders, in order. */
  lemma {:induction false} ScanRendered(ps: seq<Piece>)
    requires WellFormedPieces(ps)
    ensures Scan(Render(ps)) == ArgMatches(ps)
    decreases |ps|
  {
    if |ps| > 0 {
      var rest := Render(ps[1..]);
      ScanRendered(ps[1..]);
      RenderSplit(ps);
      match ps[0]
      case Text(t) =>
        ScanPlain(t, rest);
        assert ArgMatches(ps) == [] + ArgMatches(ps[1..]);
      case Arg(n) =>
        ScanCanonical(n, rest);
        assert ArgMatches(ps) == [ArgMatch(n)] + ArgMatches(ps[1..]);
    }
  }

  lemma RenderConcat(a: seq<Piece>, b: seq<Piece>)
    ensures Render(a + b) == Render(a) + Render(b)
    decreases |a|
  {
    if |a| > 0 {
      assert (a + b)[1..] == a[1..] + b;
      RenderConcat(a[1..], b);
    } else {
      assert a + b == b;
    }
  }

  /** QString::replace of placeholder {n} in a rendered template replaces
      exactly that placeholder's occurrences, and touches nothing else. */
  lemma {:induction false} ReplaceInRendered(ps: seq<Piece>, n: nat, q: seq<Piece>)
    requires WellFormedPieces(ps) && 1 <= n
    ensures ReplaceAll(Render(ps), Canonical(n), Render(q)) == Render(SubstArg(ps, n, q))
    decreases |ps|
  {
    var t := Canonical(n);
    CanonicalIsPlaceholder(n);
    if |ps| == 0 {
      ReplaceAllShort("", t, Render(q));
    } else {
      var rest := Render(ps[1..]);
      ReplaceInRendered(ps[1..], n, q);
      RenderSplit(ps);
      RenderConcat(if ps[0] == Arg(n) then q else [ps[0]], SubstArg(ps[1..], n, q));
      match ps[0]
      case Text(x) =>
        ReplaceAllSkipsPrefix(x, rest, t, Render(q));
        RenderSplit([ps[0]]);
      case Arg(m) =>
        if m == n {
          ReplaceAllAtFront(rest, t, Render(q));
        } else {
          var u := Canonical(m);
          CanonicalIsPlaceholder(m);
          PlaceholderAtFront(u, rest);
          if u == t {
            CanonicalInjective(m, n);
          }
          ReplaceAtOtherPlaceholder(u + rest, t, Render(q));
          RenderSplit([ps[0]]);
        }
    }
  }

  lemma ConsMatches(p: Placeholder, ms: seq<Placeholder>)
    requires IsPlaceholderText(p.text) && AllMatches(ms)
    ensures AllMatches([p] + ms)
  {
    forall k | 0 <= k < |[p] + ms|
      ensures IsPlaceholderText(([p] + ms)[k].text)
    {
      if k > 0 {
        assert ([p] + ms)[k] == ms[k - 1];
      }
    }
  }

  /** The match of {n} names argument n. */
  lemma ArgMatchResolves(n: nat, args: seq<string>)
    requires 1 <= n <= IntMax
    ensures IsPlaceholderText(ArgMatch(n).text) && ArgIndex(ArgMatch(n)) == n - 1
    ensures Resolves(ArgMatch(n), args) <==> n <= |args|
  {
    CanonicalIsPlaceholder(n);
    ToIntOfNat(n);
  }

  /** One turn of the source's loop on the match of placeholder {n}. */
  lemma ExplainArg(pattern: string, n: nat, ms: seq<Placeholder>, args: seq<string>)
    requires 1 <= n <= IntMax && AllMatches(ms)
    ensures AllMatches([ArgMatch(n)] + ms)
    ensures Explain(pattern, [ArgMatch(n)] + ms, args) ==
      if n <= |args| then Explain(ReplaceAll(pattern, Canonical(n), args[n - 1]), ms, args)
      else Failure(Raise(MissingReplacementArguments, [pattern]))
  {
    ArgMatchResolves(n, args);
    var all := [ArgMatch(n)] + ms;
    ConsMatches(ArgMatch(n), ms);
    assert all[0..] == all && all[0] == ArgMatch(n) && all[1..] == ms;
    ExplainStep(pattern, all, 0, args);
  }
}
