/** ExpressionTranslator: the explanation templates of the operators and
    getExplanation, which fills the numbered placeholders of a description
    with the explanations of the arguments.

    getExplanation finds every match of `\{\s*(\d+)\s*\}` in the ORIGINAL
    description, left to right; for each match, in turn, the captured
    number minus one indexes the arguments, and every occurrence of the
    match's text in the pattern as it now stands is replaced by that
    argument. A number outside 1..|arguments| throws
    MissingReplacementArguments carrying the pattern as it stood. */
module Translator {
  import opened Wrappers
  import opened Strings
  import opened CodeEntity
  import opened Placeholders
  import opened Errors

  // ---------------------------------------------------------------------
  // getExplanation as written

  /** The argument a match names: QString::toInt of its digits, minus one. */
  function ArgIndex(p: Placeholder): int {
    ToInt(p.digits) - 1
  }

  predicate Resolves(p: Placeholder, args: seq<string>) {
    0 <= ArgIndex(p) < |args|
  }

  predicate AllResolve(ms: seq<Placeholder>, args: seq<string>) {
    forall k :: 0 <= k < |ms| ==> Resolves(ms[k], args)
  }

  predicate AllMatches(ms: seq<Placeholder>) {
    forall k :: 0 <= k < |ms| ==> IsPlaceholderText(ms[k].text)
  }

  lemma ConsResolve(p: Placeholder, ms: seq<Placeholder>, args: seq<string>)
    ensures AllResolve([p] + ms, args) <==> Resolves(p, args) && AllResolve(ms, args)
  {
    if Resolves(p, args) && AllResolve(ms, args) {
      forall k | 1 <= k < |[p] + ms| ensures Resolves(([p] + ms)[k], args) {
        assert ([p] + ms)[k] == ms[k - 1];
      }
    }
    if AllResolve([p] + ms, args) {
      assert ([p] + ms)[0] == p;
      forall k | 0 <= k < |ms| ensures Resolves(ms[k], args) {
        assert ([p] + ms)[k + 1] == ms[k];
      }
    }
  }

  lemma AllMatchesSuffix(ms: seq<Placeholder>, i: nat)
    requires AllMatches(ms) && i <= |ms|
    ensures AllMatches(ms[i..])
  {
    forall k | 0 <= k < |ms[i..]| ensures IsPlaceholderText(ms[i..][k].text) {
      assert ms[i..][k] == ms[i + k];
    }
  }

  /** The loop over the matches still to be handled. */
  function Explain(pattern: string, ms: seq<Placeholder>, args: seq<string>): (r: Result<string, TEException>)
    requires AllMatches(ms)
    decreases |ms|
  {
    if |ms| == 0 then Success(pattern)
    else if Resolves(ms[0], args) then
      Explain(ReplaceAll(pattern, ms[0].text, args[ArgIndex(ms[0])]), ms[1..], args)
    else Failure(Raise(MissingReplacementArguments, [pattern]))
  }

  function GetExplanation(description: string, args: seq<string>): Result<string, TEException> {
    Explain(description, Scan(description), args)
  }

  /** The source's loop, one QString::replace per match of the original. */
  method GetExplanationLoop(description: string, args: seq<string>) returns (r: Result<string, TEException>)
    ensures r == GetExplanation(description, args)
  {
    var ms := Scan(description);
    AllMatchesSuffix(ms, 0);
    assert ms[0..] == ms;
    var pattern := description;
    var i := 0;
    while i < |ms|
      invariant 0 <= i <= |ms| && AllMatches(ms[i..])
      invariant Explain(pattern, ms[i..], args) == Explain(description, ms, args)
    {
      ExplainStep(pattern, ms, i, args);
      var index := ToInt(ms[i].digits) - 1;
      if 0 <= index < |args| {
        pattern := ReplaceAll(pattern, ms[i].text, args[index]);
      } else {
        return Failure(Raise(MissingReplacementArguments, [pattern]));
      }
      i := i + 1;
    }
    assert ms[i..] == [];
    return Success(pattern);
  }

  /** One turn of the loop, at match `i`. */
  lemma ExplainStep(pattern: string, ms: seq<Placeholder>, i: nat, args: seq<string>)
    requires i < |ms| && AllMatches(ms[i..])
    ensures AllMatches(ms[i + 1..]) && |ms[i].text| > 0
    ensures Explain(pattern, ms[i..], args) ==
      if Resolves(ms[i], args) then Explain(ReplaceAll(pattern, ms[i].text, args[ArgIndex(ms[i])]), ms[i + 1..], args)
      else Failure(Raise(MissingReplacementArguments, [pattern]))
  {
    var rest := ms[i..];
    assert rest[0] == ms[i] && rest[1..] == ms[i + 1..];
    AllMatchesSuffix(rest, 1);
  }

  // ---------------------------------------------------------------------
  // When it succeeds, and what it throws

  lemma {:induction false} ExplainSucceedsIff(pattern: string, ms: seq<Placeholder>, args: seq<string>)
    requires AllMatches(ms)
    ensures Explain(pattern, ms, args).Success? <==> AllResolve(ms, args)
    ensures Explain(pattern, ms, args).Failure? ==>
      Explain(pattern, ms, args).error.errorType == MissingReplacementArguments &&
      |Explain(pattern, ms, args).error.args| == 1 &&
      Explain(pattern, ms, args).error.filename == "" && Explain(pattern, ms, args).error.line == 0
    decreases |ms|
  {
    if |ms| > 0 {
      ConsResolve(ms[0], ms[1..], args);
      assert [ms[0]] + ms[1..] == ms;
      if Resolves(ms[0], args) {
        ExplainSucceedsIff(ReplaceAll(pattern, ms[0].text, args[ArgIndex(ms[0])]), ms[1..], args);
      }
    }
  }

  /** The explanation succeeds exactly when every match of the description
      names an argument that exists; otherwise it throws
      MissingReplacementArguments with one argument, no file and no line. */
  lemma GetExplanationSucceedsIff(description: string, args: seq<string>)
    ensures GetExplanation(description, args).Success? <==> AllResolve(Scan(description), args)
    ensures GetExplanation(description, args).Failure? ==>
      GetExplanation(description, args).error.errorType == MissingReplacementArguments &&
      |GetExplanation(description, args).error.args| == 1 &&
      GetExplanation(description, args).error.filename == "" &&
      GetExplanation(description, args).error.line == 0
  {
    ExplainSucceedsIff(description, Scan(description), args);
  }

  /** When the first match already names no argument, the error carries the
      description itself. */
  lemma FirstMatchUnresolved(description: string, args: seq<string>)
    requires |Scan(description)| > 0 && !Resolves(Scan(description)[0], args)
    ensures GetExplanation(description, args) == Failure(Raise(MissingReplacementArguments, [description]))
  {
  }

  /** A description with no match is returned as it is, whatever the
      arguments; one without '{' has no match. */
  lemma NoMatchUnchanged(description: string, args: seq<string>)
    requires Scan(description) == [] || Lacks(description, '{')
    ensures GetExplanation(description, args) == Success(description)
  {
    if Lacks(description, '{') {
      NoBraceNoMatch(description);
    }
  }

  // ---------------------------------------------------------------------
  // The single-pass reading

  /** One left-to-right pass over the description: every match becomes
      the argument it names, the text between matches is copied, and
      nothing inserted is looked at again. The first match naming no
      argument is an error carrying the description. */
  function Fill(s: string, args: seq<string>): (r: Result<string, TEException>)
    decreases |s|
  {
    if |s| == 0 then Success("")
    else match PlaceholderAt(s)
      case Some(p) =>
        if Resolves(p, args) then Prepend(args[ArgIndex(p)], Fill(s[|p.text|..], args))
        else Failure(Raise(MissingReplacementArguments, [s]))
      case None => Prepend([s[0]], Fill(s[1..], args))
  }

  function Prepend(x: string, r: Result<string, TEException>): Result<string, TEException> {
    if r.Success? then Success(x + r.value) else r
  }

  /** getExplanation read as one pass: it succeeds exactly when every
      match names an argument, and then every match becomes that argument
      at once; otherwise the error carries the whole description. */
  function GetExplanationSinglePass(description: string, args: seq<string>): (r: Result<string, TEException>)
    ensures r.Success? <==> AllResolve(Scan(description), args)
    ensures r.Failure? ==> r.error == Raise(MissingReplacementArguments, [description])
    ensures AllResolve(Scan(description), args) ==>
      r.Success? && r.value == Substitute(description, PairsOf(Scan(description), args))
  {
    FillIsSubstitution(description, args);
    match Fill(description, args)
    case Success(text) => Success(text)
    case Failure(_) => Failure(Raise(MissingReplacementArguments, [description]))
  }

  /** The pairs the loop replaces, in order: each match's text and the
      argument it names. */
  function PairsOf(ms: seq<Placeholder>, args: seq<string>): (pairs: seq<(string, string)>)
    requires AllResolve(ms, args)
    ensures |pairs| == |ms|
    ensures forall k :: 0 <= k < |ms| ==> Resolves(ms[k], args) && pairs[k] == (ms[k].text, args[ArgIndex(ms[k])])
  {
    seq(|ms|, k requires 0 <= k < |ms| && Resolves(ms[k], args) => (ms[k].text, args[ArgIndex(ms[k])]))
  }

  /** A match is determined by its text. */
  predicate SelfMatched(ms: seq<Placeholder>) {
    forall k :: 0 <= k < |ms| ==> PlaceholderAt(ms[k].text) == Some(ms[k])
  }

  lemma ConsSelfMatched(p: Placeholder, ms: seq<Placeholder>)
    ensures SelfMatched([p] + ms) <==> PlaceholderAt(p.text) == Some(p) && SelfMatched(ms)
  {
    if PlaceholderAt(p.text) == Some(p) && SelfMatched(ms) {
      ConsSelfMatchedIntro(p, ms);
    }
    if SelfMatched([p] + ms) {
      ConsSelfMatchedElim(p, ms);
    }
  }

  lemma ConsSelfMatchedIntro(p: Placeholder, ms: seq<Placeholder>)
    requires PlaceholderAt(p.text) == Some(p) && SelfMatched(ms)
    ensures SelfMatched([p] + ms)
  {
    var qs := [p] + ms;
    forall k | 0 <= k < |qs| ensures PlaceholderAt(qs[k].text) == Some(qs[k]) {
      if k > 0 {
        assert qs[k] == ms[k - 1];
      }
    }
  }

  lemma ConsSelfMatchedElim(p: Placeholder, ms: seq<Placeholder>)
    requires SelfMatched([p] + ms)
    ensures PlaceholderAt(p.text) == Some(p) && SelfMatched(ms)
  {
    var qs := [p] + ms;
    assert qs[0] == p;
    forall k | 0 <= k < |ms| ensures PlaceholderAt(ms[k].text) == Some(ms[k]) {
      assert qs[k + 1] == ms[k];
    }
  }

  /** The match at the head of a text is the match of its own text. */
  lemma HeadSelfMatched(s: string)
    requires PlaceholderAt(s).Some?
    ensures PlaceholderAt(PlaceholderAt(s).value.text) == PlaceholderAt(s)
  {
    var t := PlaceholderAt(s).value.text;
    assert t[..|t|] == t;
    PlaceholderAtAgree(s, t);
  }

  lemma {:induction false} ScanSelfMatched(s: string)
    ensures SelfMatched(Scan(s))
    decreases |s|
  {
    if |s| > 0 {
      ScanStep(s);
      match PlaceholderAt(s)
      case Some(p) =>
        ScanSelfMatched(s[|p.text|..]);
        HeadSelfMatched(s);
        ConsSelfMatched(p, Scan(s[|p.text|..]));
      case None =>
        ScanSelfMatched(s[1..]);
    }
  }

  /** One step of the scan. */
  lemma ScanStep(s: string)
    requires |s| > 0
    ensures PlaceholderAt(s).Some? ==>
      Scan(s) == [PlaceholderAt(s).value] + Scan(s[|PlaceholderAt(s).value.text|..])
    ensures PlaceholderAt(s).None? ==> Scan(s) == Scan(s[1..])
  {
  }

  lemma {:induction false} ExplainIsSeqReplace(pattern: string, ms: seq<Placeholder>, args: seq<string>)
    requires AllMatches(ms) && AllResolve(ms, args)
    ensures NonEmptyKeys(PairsOf(ms, args))
    ensures Explain(pattern, ms, args) == Success(SeqReplace(pattern, PairsOf(ms, args)))
    decreases |ms|
  {
    var pairs := PairsOf(ms, args);
    if |ms| > 0 {
      AllMatchesSuffix(ms, 1);
      ConsResolve(ms[0], ms[1..], args);
      assert [ms[0]] + ms[1..] == ms;
      ExplainIsSeqReplace(ReplaceAll(pattern, ms[0].text, args[ArgIndex(ms[0])]), ms[1..], args);
      assert pairs[1..] == PairsOf(ms[1..], args);
    }
  }

  /** Every text among the pairs looks up the argument its match names. */
  lemma {:induction false} PairsLookup(ms: seq<Placeholder>, args: seq<string>, k: nat)
    requires SelfMatched(ms) && AllResolve(ms, args) && k < |ms|
    ensures Lookup(PairsOf(ms, args), ms[k].text) == args[ArgIndex(ms[k])]
    decreases k
  {
    var pairs := PairsOf(ms, args);
    if pairs[0].0 != ms[k].text {
      ConsResolve(ms[0], ms[1..], args);
      ConsSelfMatched(ms[0], ms[1..]);
      assert [ms[0]] + ms[1..] == ms;
      PairsLookup(ms[1..], args, k - 1);
      assert pairs[1..] == PairsOf(ms[1..], args);
    }
  }

  /** Every match of the text is resolved, and looks up its argument. */
  predicate LooksUpArgs(ms: seq<Placeholder>, pairs: seq<(string, string)>, args: seq<string>) {
    forall k :: 0 <= k < |ms| ==> Resolves(ms[k], args) && Lookup(pairs, ms[k].text) == args[ArgIndex(ms[k])]
  }

  lemma ConsLooksUp(p: Placeholder, ms: seq<Placeholder>, pairs: seq<(string, string)>, args: seq<string>)
    requires LooksUpArgs([p] + ms, pairs, args)
    ensures Resolves(p, args) && Lookup(pairs, p.text) == args[ArgIndex(p)]
    ensures LooksUpArgs(ms, pairs, args)
  {
    assert ([p] + ms)[0] == p;
    forall k | 0 <= k < |ms| ensures Resolves(ms[k], args) && Lookup(pairs, ms[k].text) == args[ArgIndex(ms[k])] {
      assert ([p] + ms)[k + 1] == ms[k];
    }
  }

  lemma {:induction false} SubstituteIsFill(s: string, pairs: seq<(string, string)>, args: seq<string>)
    requires LooksUpArgs(Scan(s), pairs, args)
    ensures Fill(s, args) == Success(Substitute(s, pairs))
    decreases |s|
  {
    if |s| > 0 {
      ScanStep(s);
      match PlaceholderAt(s)
      case Some(p) =>
        var rest := s[|p.text|..];
        ConsLooksUp(p, Scan(rest), pairs, args);
        SubstituteIsFill(rest, pairs, args);
      case None =>
        SubstituteIsFill(s[1..], pairs, args);
    }
  }

  /** On a description whose every '{' opens a placeholder, with arguments
      holding no '{', the source's sequential replacement and the single
      pass agree: same success, same text. */
  lemma SequentialIsSinglePass(description: string, args: seq<string>)
    requires WellBraced(description)
    requires forall k :: 0 <= k < |args| ==> Lacks(args[k], '{')
    ensures GetExplanation(description, args).Success? == GetExplanationSinglePass(description, args).Success?
    ensures GetExplanation(description, args).Success? ==>
      GetExplanation(description, args).value == GetExplanationSinglePass(description, args).value
  {
    var ms := Scan(description);
    ExplainSucceedsIff(description, ms, args);
    FillSucceedsIff(description, args);
    if AllResolve(ms, args) {
      ScanSelfMatched(description);
      var pairs := PairsOf(ms, args);
      ExplainIsSeqReplace(description, ms, args);
      SeqReplaceIsSubstitute(description, pairs);
      forall k | 0 <= k < |ms|
        ensures Resolves(ms[k], args) && Lookup(pairs, ms[k].text) == args[ArgIndex(ms[k])]
      {
        PairsLookup(ms, args, k);
      }
      SubstituteIsFill(description, pairs, args);
    }
  }

  /** The single pass is substitution of every match by the argument it
      names, whenever every match names one. */
  lemma FillIsSubstitution(s: string, args: seq<string>)
    ensures Fill(s, args).Success? <==> AllResolve(Scan(s), args)
    ensures AllResolve(Scan(s), args) ==>
      Fill(s, args) == Success(Substitute(s, PairsOf(Scan(s), args)))
  {
    FillSucceedsIff(s, args);
    var ms := Scan(s);
    if AllResolve(ms, args) {
      ScanSelfMatched(s);
      var pairs := PairsOf(ms, args);
      forall k | 0 <= k < |ms|
        ensures Resolves(ms[k], args) && Lookup(pairs, ms[k].text) == args[ArgIndex(ms[k])]
      {
        PairsLookup(ms, args, k);
      }
      SubstituteIsFill(s, pairs, args);
    }
  }

  /** The single pass succeeds exactly when every match resolves. */
  lemma {:induction false} FillSucceedsIff(s: string, args: seq<string>)
    ensures Fill(s, args).Success? <==> AllResolve(Scan(s), args)
    decreases |s|
  {
    if |s| > 0 {
      ScanStep(s);
      match PlaceholderAt(s)
      case Some(p) =>
        var rest := s[|p.text|..];
        FillSucceedsIff(rest, args);
        ConsResolve(p, Scan(rest), args);
      case None =>
        FillSucceedsIff(s[1..], args);
    }
  }
}
