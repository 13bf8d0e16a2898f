/** Expression::removeConsecutiveDuplicates: a word that repeats, up to
    ASCII case, the word kept just before it is dropped together with the
    separators in front of it.

    A text is read as its runs: maximal stretches of word characters
    (Latin letters, digits, '_') and maximal stretches of anything else.
    The collapse works on the runs, and its result is the kept runs written
    back out. */
module Duplicates {
  import opened Strings
  import opened Lexical

  /** ASCII case folding. */
  function Fold(c: char): char {
    if 'A' <= c <= 'Z' then (c as int + 32) as char else c
  }

  /** Equal up to ASCII case. */
  predicate SameWord(x: string, y: string)
    decreases |x|
  {
    |x| == |y| && (|x| == 0 || (Fold(x[0]) == Fold(y[0]) && SameWord(x[1..], y[1..])))
  }

  /** Length of the leading run of word characters. */
  function WordLen(s: string): (n: nat)
    ensures n <= |s|
    ensures n < |s| ==> !IsWordChar(s[n])
    ensures n > 0 <==> |s| > 0 && IsWordChar(s[0])
    decreases |s|
  {
    if |s| == 0 || !IsWordChar(s[0]) then 0 else 1 + WordLen(s[1..])
  }

  /** Length of the leading run of separator characters. */
  function GapLen(s: string): (n: nat)
    ensures n <= |s|
    ensures n < |s| ==> IsWordChar(s[n])
    ensures n > 0 <==> |s| > 0 && !IsWordChar(s[0])
    decreases |s|
  {
    if |s| == 0 || IsWordChar(s[0]) then 0 else 1 + GapLen(s[1..])
  }

  /** A non-empty stretch of word characters. */
  predicate IsWord(w: string) {
    |w| > 0 && forall k :: 0 <= k < |w| ==> IsWordChar(w[k])
  }

  /** A non-empty stretch of separator characters. */
  predicate IsGap(g: string) {
    |g| > 0 && forall k :: 0 <= k < |g| ==> !IsWordChar(g[k])
  }

  lemma {:induction false} WordLenChars(s: string)
    ensures forall k :: 0 <= k < WordLen(s) ==> IsWordChar(s[k])
    decreases |s|
  {
    if |s| > 0 && IsWordChar(s[0]) {
      WordLenChars(s[1..]);
      assert forall k :: 1 <= k < WordLen(s) ==> s[k] == s[1..][k - 1];
    }
  }

  lemma {:induction false} GapLenChars(s: string)
    ensures forall k :: 0 <= k < GapLen(s) ==> !IsWordChar(s[k])
    decreases |s|
  {
    if |s| > 0 && !IsWordChar(s[0]) {
      GapLenChars(s[1..]);
      assert forall k :: 1 <= k < GapLen(s) ==> s[k] == s[1..][k - 1];
    }
  }

  lemma {:induction false} WordLenOf(w: string, y: string)
    requires forall k :: 0 <= k < |w| ==> IsWordChar(w[k])
    requires |y| == 0 || !IsWordChar(y[0])
    ensures WordLen(w + y) == |w|
    decreases |w|
  {
    if |w| > 0 {
      assert (w + y)[1..] == w[1..] + y;
      WordLenOf(w[1..], y);
    } else {
      assert w + y == y;
    }
  }

  lemma {:induction false} GapLenOf(g: string, y: string)
    requires forall k :: 0 <= k < |g| ==> !IsWordChar(g[k])
    requires |y| == 0 || IsWordChar(y[0])
    ensures GapLen(g + y) == |g|
    decreases |g|
  {
    if |g| > 0 {
      assert (g + y)[1..] == g[1..] + y;
      GapLenOf(g[1..], y);
    } else {
      assert g + y == y;
    }
  }

  // ---------------------------------------------------------------------
  // Runs

  datatype Run = Word(text: string) | Gap(text: string)

  predicate WellFormed(r: Run) {
    if r.Word? then IsWord(r.text) else IsGap(r.text)
  }

  /** Non-empty runs whose kinds alternate: the shape of every split. */
  predicate Alternating(rs: seq<Run>)
    decreases |rs|
  {
    |rs| == 0 ||
    (WellFormed(rs[0]) && (|rs| == 1 || rs[0].Word? != rs[1].Word?) && Alternating(rs[1..]))
  }

  /** The runs of a text, left to right. */
  function Runs(s: string): seq<Run>
    decreases |s|
  {
    if |s| == 0 then []
    else if IsWordChar(s[0]) then
      var n := WordLen(s);
      [Word(s[..n])] + Runs(s[n..])
    else
      var n := GapLen(s);
      [Gap(s[..n])] + Runs(s[n..])
  }

  /** The runs written back out. */
  function Render(rs: seq<Run>): string {
    if |rs| == 0 then "" else rs[0].text + Render(rs[1..])
  }

  /** Splitting into runs loses and adds nothing. */
  lemma {:induction false} RenderRuns(s: string)
    ensures Render(Runs(s)) == s
    decreases |s|
  {
    if |s| > 0 {
      var n := if IsWordChar(s[0]) then WordLen(s) else GapLen(s);
      var r := if IsWordChar(s[0]) then Word(s[..n]) else Gap(s[..n]);
      var rest := Runs(s[n..]);
      assert Runs(s) == [r] + rest;
      RenderRuns(s[n..]);
      RenderCons(r, rest);
      SplitAt(s, n);
    }
  }

  lemma RenderCons(r: Run, rs: seq<Run>)
    ensures Render([r] + rs) == r.text + Render(rs)
  {
    assert ([r] + rs)[1..] == rs;
  }

  lemma AlternatingCons(r: Run, rs: seq<Run>)
    requires WellFormed(r) && Alternating(rs)
    requires |rs| > 0 ==> r.Word? != rs[0].Word?
    ensures Alternating([r] + rs)
  {
    assert ([r] + rs)[1..] == rs;
  }

  /** The runs of a text alternate, and the first one has the kind of the
      text's first character. */
  lemma {:induction false} RunsAlternate(s: string)
    ensures Alternating(Runs(s))
    ensures |s| > 0 ==> |Runs(s)| > 0 && (Runs(s)[0].Word? <==> IsWordChar(s[0]))
    decreases |s|
  {
    if |s| > 0 {
      var n := if IsWordChar(s[0]) then WordLen(s) else GapLen(s);
      var r := if IsWordChar(s[0]) then Word(s[..n]) else Gap(s[..n]);
      FirstRun(s, n, r);
      RunsAlternate(s[n..]);
      AlternatingCons(r, Runs(s[n..]));
    }
  }

  /** The first run of a text is well formed, and what follows it starts
      with a character of the other kind. */
  lemma FirstRun(s: string, n: nat, r: Run)
    requires |s| > 0
    requires n == (if IsWordChar(s[0]) then WordLen(s) else GapLen(s))
    requires r == (if IsWordChar(s[0]) then Word(s[..n]) else Gap(s[..n]))
    ensures 0 < n <= |s| && Runs(s) == [r] + Runs(s[n..]) && WellFormed(r)
    ensures n < |s| ==> |s[n..]| > 0 && (IsWordChar(s[n..][0]) <==> !IsWordChar(s[0]))
  {
    if IsWordChar(s[0]) {
      WordLenChars(s);
    } else {
      GapLenChars(s);
    }
    assert forall k :: 0 <= k < n ==> r.text[k] == s[k];
    if n < |s| {
      assert s[n..][0] == s[n];
    }
  }

  /** An alternating list of runs renders to a text that starts with the
      first character of its first run. */
  lemma RenderStart(rs: seq<Run>)
    requires Alternating(rs) && |rs| > 0
    ensures Render(rs) == rs[0].text + Render(rs[1..])
    ensures |Render(rs)| > 0 && Render(rs)[0] == rs[0].text[0]
  {
  }

  /** Splitting the rendering of alternating runs gives the runs back. */
  lemma {:induction false} RunsRender(rs: seq<Run>)
    requires Alternating(rs)
    ensures Runs(Render(rs)) == rs
    decreases |rs|
  {
    if |rs| > 0 {
      var t := rs[0].text;
      var rest := Render(rs[1..]);
      var s := Render(rs);
      RenderStart(rs);
      if |rs| > 1 {
        RenderStart(rs[1..]);
      }
      RunsRender(rs[1..]);
      if rs[0].Word? {
        WordLenOf(t, rest);
      } else {
        GapLenOf(t, rest);
      }
      assert s[..|t|] == t && s[|t|..] == rest;
    }
  }

  // ---------------------------------------------------------------------
  // The collapse

  /** Drop the separator-and-word pairs at the head of `rs` whose word
      repeats `w`. What is left is a suffix of `rs` that does not open with
      such a pair. */
  function DropRepeats(rs: seq<Run>, w: string): (r: seq<Run>)
    ensures |r| <= |rs| && r == rs[|rs| - |r|..]
    ensures !(|r| >= 2 && r[0].Gap? && r[1].Word? && SameWord(r[1].text, w))
    decreases |rs|
  {
    if |rs| >= 2 && rs[0].Gap? && rs[1].Word? && SameWord(rs[1].text, w) then
      DropRepeats(rs[2..], w)
    else rs
  }

  /** Keep every run, except that after each kept word the separator-and-word
      pairs repeating it are dropped. */
  function CollapseRuns(rs: seq<Run>): (r: seq<Run>)
    ensures |rs| > 0 ==> |r| > 0 && r[0] == rs[0]
    decreases |rs|
  {
    if |rs| == 0 then []
    else if rs[0].Gap? then [rs[0]] + CollapseRuns(rs[1..])
    else [rs[0]] + CollapseRuns(DropRepeats(rs[1..], rs[0].text))
  }

  function RemoveConsecutiveDuplicates(s: string): string {
    Render(CollapseRuns(Runs(s)))
  }

  /** The runs open with a word followed, across one separator, by the same
      word up to case. */
  predicate OpensRepeat(rs: seq<Run>) {
    |rs| >= 3 && rs[0].Word? && rs[1].Gap? && rs[2].Word? && SameWord(rs[2].text, rs[0].text)
  }

  /** No word is followed, across one separator, by itself up to case. */
  predicate NoRepeats(rs: seq<Run>) {
    forall i :: 0 <= i < |rs| ==> !OpensRepeat(rs[i..])
  }

  lemma NoRepeatsCons(r: Run, rs: seq<Run>)
    requires NoRepeats(rs) && !OpensRepeat([r] + rs)
    ensures NoRepeats([r] + rs)
  {
    forall i | 1 <= i < |rs| + 1
      ensures ([r] + rs)[i..] == rs[i - 1..]
    {
    }
  }

  lemma NoRepeatsTail(rs: seq<Run>)
    requires NoRepeats(rs) && |rs| > 0
    ensures NoRepeats(rs[1..]) && !OpensRepeat(rs)
  {
    assert rs[0..] == rs;
    forall i | 0 <= i < |rs| - 1
      ensures rs[1..][i..] == rs[i + 1..]
    {
    }
  }

  lemma {:induction false} AlternatingSuffix(rs: seq<Run>, k: nat)
    requires Alternating(rs) && k <= |rs|
    ensures Alternating(rs[k..])
    decreases k
  {
    if k > 0 {
      AlternatingSuffix(rs[1..], k - 1);
      assert rs[1..][k - 1..] == rs[k..];
    }
  }

  /** Dropping pairs from runs that open with a separator leaves runs that
      still open with a separator. */
  lemma {:induction false} DropRepeatsStartsWithGap(rs: seq<Run>, w: string)
    requires Alternating(rs) && |rs| > 0 && rs[0].Gap?
    ensures |DropRepeats(rs, w)| > 0 ==> DropRepeats(rs, w)[0].Gap?
    decreases |rs|
  {
    if |rs| >= 2 && rs[1].Word? && SameWord(rs[1].text, w) && |rs| > 2 {
      assert rs[2..] == rs[1..][1..];
      DropRepeatsStartsWithGap(rs[2..], w);
    }
  }

  /** The collapse of alternating runs alternates. */
  lemma {:induction false} CollapseAlternates(rs: seq<Run>)
    requires Alternating(rs)
    ensures Alternating(CollapseRuns(rs))
    decreases |rs|
  {
    if |rs| > 0 {
      var t := rs[1..];
      if rs[0].Gap? {
        CollapseAlternates(t);
        AlternatingCons(rs[0], CollapseRuns(t));
      } else {
        var d := DropRepeats(t, rs[0].text);
        AlternatingSuffix(rs, 1);
        AlternatingSuffix(t, |t| - |d|);
        if |t| > 0 {
          DropRepeatsStartsWithGap(t, rs[0].text);
        }
        CollapseAlternates(d);
        AlternatingCons(rs[0], CollapseRuns(d));
      }
    }
  }

  /** The collapse leaves no repeat behind. */
  lemma {:induction false} CollapseNoRepeats(rs: seq<Run>)
    ensures NoRepeats(CollapseRuns(rs))
    decreases |rs|
  {
    if |rs| > 0 {
      if rs[0].Gap? {
        CollapseNoRepeats(rs[1..]);
        NoRepeatsCons(rs[0], CollapseRuns(rs[1..]));
      } else {
        var d := DropRepeats(rs[1..], rs[0].text);
        CollapseNoRepeats(d);
        NoRepeatAfterKeptWord(rs[0], d);
        NoRepeatsCons(rs[0], CollapseRuns(d));
      }
    }
  }

  /** After a kept word comes the collapse of runs that do not open with a
      repeat of it, so no repeat starts at the kept word. */
  lemma NoRepeatAfterKeptWord(r: Run, d: seq<Run>)
    requires !(|d| >= 2 && d[0].Gap? && d[1].Word? && SameWord(d[1].text, r.text))
    ensures !OpensRepeat([r] + CollapseRuns(d))
  {
    if |d| >= 2 && d[0].Gap? {
      CollapseSecond(d);
    }
  }

  lemma CollapseSecond(d: seq<Run>)
    requires |d| >= 2 && d[0].Gap?
    ensures |CollapseRuns(d)| >= 2 && CollapseRuns(d)[1] == d[1]
  {
    assert CollapseRuns(d) == [d[0]] + CollapseRuns(d[1..]);
  }

  /** The collapse changes nothing exactly when there is no repeat. */
  lemma {:induction false} CollapseUnchangedIff(rs: seq<Run>)
    ensures CollapseRuns(rs) == rs <==> NoRepeats(rs)
    decreases |rs|
  {
    CollapseNoRepeats(rs);
    if NoRepeats(rs) && |rs| > 0 {
      NoRepeatsTail(rs);
      var t := rs[1..];
      CollapseUnchangedIff(t);
      if rs[0].Word? {
        assert DropRepeats(t, rs[0].text) == t;
      }
      assert [rs[0]] + t == rs;
    }
  }

  lemma CollapseIdempotent(rs: seq<Run>)
    ensures CollapseRuns(CollapseRuns(rs)) == CollapseRuns(rs)
  {
    CollapseNoRepeats(rs);
    CollapseUnchangedIff(CollapseRuns(rs));
  }

  /** Dropping anything from well-formed runs shortens their text. */
  lemma {:induction false} DropRepeatsShrinks(rs: seq<Run>, w: string)
    requires Alternating(rs)
    ensures DropRepeats(rs, w) == rs || |Render(DropRepeats(rs, w))| < |Render(rs)|
    decreases |rs|
  {
    if |rs| >= 2 && rs[0].Gap? && rs[1].Word? && SameWord(rs[1].text, w) {
      AlternatingSuffix(rs, 2);
      DropRepeatsShrinks(rs[2..], w);
      RenderPair(rs);
    }
  }

  lemma RenderPair(rs: seq<Run>)
    requires Alternating(rs) && |rs| >= 2
    ensures |Render(rs)| > |Render(rs[2..])|
  {
    RenderStart(rs);
    RenderStart(rs[1..]);
    assert rs[1..][1..] == rs[2..];
  }

  /** The collapse either changes nothing or shortens the text. */
  lemma {:induction false} CollapseShrinks(rs: seq<Run>)
    requires Alternating(rs)
    ensures CollapseRuns(rs) == rs || |Render(CollapseRuns(rs))| < |Render(rs)|
    decreases |rs|, 1
  {
    if |rs| > 0 {
      if rs[0].Gap? {
        ShrinksAfterGap(rs);
      } else {
        ShrinksAfterWord(rs);
      }
    }
  }

  lemma {:induction false} ShrinksAfterGap(rs: seq<Run>)
    requires Alternating(rs) && |rs| > 0 && rs[0].Gap?
    ensures CollapseRuns(rs) == rs || |Render(CollapseRuns(rs))| < |Render(rs)|
    decreases |rs|, 0
  {
    var t := rs[1..];
    AlternatingSuffix(rs, 1);
    CollapseShrinks(t);
    ConsShrinks(rs[0], CollapseRuns(t), t);
    ConsTail(rs);
    CollapseStep(rs);
  }

  lemma {:induction false} ShrinksAfterWord(rs: seq<Run>)
    requires Alternating(rs) && |rs| > 0 && rs[0].Word?
    ensures CollapseRuns(rs) == rs || |Render(CollapseRuns(rs))| < |Render(rs)|
    decreases |rs|, 0
  {
    var t := rs[1..];
    var d := DropRepeats(t, rs[0].text);
    AlternatingSuffix(rs, 1);
    DropThenCollapseShrinks(t, rs[0].text);
    ConsShrinks(rs[0], CollapseRuns(d), t);
    ConsTail(rs);
    CollapseStep(rs);
  }

  lemma {:induction false} DropThenCollapseShrinks(t: seq<Run>, w: string)
    requires Alternating(t)
    ensures CollapseRuns(DropRepeats(t, w)) == t ||
      |Render(CollapseRuns(DropRepeats(t, w)))| < |Render(t)|
    decreases |t|, 2
  {
    var d := DropRepeats(t, w);
    assert d == t || |Render(d)| < |Render(t)| by {
      DropRepeatsShrinks(t, w);
    }
    assert Alternating(d) by {
      AlternatingSuffix(t, |t| - |d|);
    }
    var c := CollapseRuns(d);
    assert c == d || |Render(c)| < |Render(d)| by {
      CollapseShrinks(d);
    }
    ShrinkChain(c, d, t);
  }

  lemma ConsTail(rs: seq<Run>)
    requires |rs| > 0
    ensures [rs[0]] + rs[1..] == rs
  {
  }

  /** One step of the collapse: the first run is kept; after a word, its
      repeats are dropped before the collapse carries on. */
  lemma CollapseStep(rs: seq<Run>)
    requires |rs| > 0
    ensures rs[0].Gap? ==> CollapseRuns(rs) == [rs[0]] + CollapseRuns(rs[1..])
    ensures rs[0].Word? ==>
      CollapseRuns(rs) == [rs[0]] + CollapseRuns(DropRepeats(rs[1..], rs[0].text))
  {
  }

  lemma ShrinkChain(c: seq<Run>, d: seq<Run>, t: seq<Run>)
    requires d == t || |Render(d)| < |Render(t)|
    requires c == d || |Render(c)| < |Render(d)|
    ensures c == t || |Render(c)| < |Render(t)|
  {
  }

  lemma ConsShrinks(r: Run, c: seq<Run>, t: seq<Run>)
    requires c == t || |Render(c)| < |Render(t)|
    ensures [r] + c == [r] + t || |Render([r] + c)| < |Render([r] + t)|
  {
    RenderCons(r, c);
    RenderCons(r, t);
  }

  // ---------------------------------------------------------------------
  // The collapse of a text

  /** A text comes back unchanged exactly when none of its words is
      followed, across one separator, by itself up to case. */
  lemma RemoveDuplicatesUnchangedIff(s: string)
    ensures RemoveConsecutiveDuplicates(s) == s <==> NoRepeats(Runs(s))
  {
    RenderRuns(s);
    RunsAlternate(s);
    CollapseUnchangedIff(Runs(s));
    CollapseShrinks(Runs(s));
  }

  lemma CollapseNeverGrows(s: string)
    ensures |RemoveConsecutiveDuplicates(s)| <= |s|
  {
    RenderRuns(s);
    RunsAlternate(s);
    CollapseShrinks(Runs(s));
  }

  /** Collapsing twice is collapsing once. */
  lemma RemoveDuplicatesIdempotent(s: string)
    ensures RemoveConsecutiveDuplicates(RemoveConsecutiveDuplicates(s)) ==
      RemoveConsecutiveDuplicates(s)
  {
    var c := CollapseRuns(Runs(s));
    RunsAlternate(s);
    CollapseAlternates(Runs(s));
    RunsRender(c);
    CollapseIdempotent(Runs(s));
  }

  /** The collapse of a text given by its runs. */
  lemma CollapseOfRuns(rs: seq<Run>)
    requires Alternating(rs)
    ensures RemoveConsecutiveDuplicates(Render(rs)) == Render(CollapseRuns(rs))
  {
    RunsRender(rs);
  }

  // ---------------------------------------------------------------------
  // The collapse on runs given word by word

  /** A word different from the one before it is kept with its separator. */
  lemma CollapseKeeps(w: string, g: string, t: seq<Run>)
    requires |t| > 0 && t[0].Word? && !SameWord(t[0].text, w)
    ensures CollapseRuns([Word(w)] + ([Gap(g)] + t)) == [Word(w)] + ([Gap(g)] + CollapseRuns(t))
  {
    var u := [Gap(g)] + t;
    var rs := [Word(w)] + u;
    SliceOfCons(Word(w), u);
    SliceOfCons(Gap(g), t);
    assert DropRepeats(u, w) == u;
    CollapseStep(rs);
    CollapseStep(u);
  }

  /** A word equal up to case to the one before it goes, with its separator. */
  lemma CollapseDrops(w: string, g: string, t: seq<Run>)
    requires |t| > 0 && t[0].Word? && SameWord(t[0].text, w)
    ensures CollapseRuns([Word(w)] + ([Gap(g)] + t)) == CollapseRuns([Word(w)] + t[1..])
  {
    var u := [Gap(g)] + t;
    SliceOfCons(Word(w), u);
    SliceOfCons(Gap(g), t);
    SliceOfCons(Word(w), t[1..]);
    assert u[2..] == t[1..];
    assert DropRepeats(u, w) == DropRepeats(t[1..], w);
    CollapseStep([Word(w)] + u);
    CollapseStep([Word(w)] + t[1..]);
  }

  lemma SliceOfCons(r: Run, rs: seq<Run>)
    ensures ([r] + rs)[0] == r && ([r] + rs)[1..] == rs
  {
  }

  // ---------------------------------------------------------------------
  // The collapse on a text given word by word

  /** A text that opens with a whole word splits into that word and the
      runs of the rest. */
  lemma RunsOfWordFirst(w: string, y: string)
    requires IsWord(w) && (|y| == 0 || !IsWordChar(y[0]))
    ensures Runs(w + y) == [Word(w)] + Runs(y)
  {
    WordLenOf(w, y);
    var s := w + y;
    assert s[0] == w[0];
    assert s[..|w|] == w && s[|w|..] == y;
  }

  lemma RunsOfGapFirst(g: string, y: string)
    requires IsGap(g) && (|y| == 0 || IsWordChar(y[0]))
    ensures Runs(g + y) == [Gap(g)] + Runs(y)
  {
    GapLenOf(g, y);
    var s := g + y;
    assert s[0] == g[0];
    assert s[..|g|] == g && s[|g|..] == y;
  }

  /** A lone word is its own collapse. */
  lemma LoneWord(w: string)
    requires IsWord(w)
    ensures RemoveConsecutiveDuplicates(w) == w
  {
    RunsOfWordFirst(w, "");
    assert w + "" == w;
    var rs: seq<Run> := [Word(w)];
    assert Runs(w) == rs;
    assert DropRepeats(rs[1..], w) == [];
    assert CollapseRuns(rs) == rs;
    RenderCons(Word(w), []);
    assert rs == [Word(w)] + [];
  }

  /** A word followed, across a separator, by a different word: both stay,
      and the collapse carries on from the second word. */
  lemma KeepsWordAfter(w: string, g: string, v: string, y: string)
    requires IsWord(w) && IsGap(g) && IsWord(v) && (|y| == 0 || !IsWordChar(y[0]))
    requires !SameWord(v, w)
    ensures RemoveConsecutiveDuplicates(w + (g + (v + y))) ==
      w + (g + RemoveConsecutiveDuplicates(v + y))
  {
    var t := Runs(v + y);
    RunsOfWordFirst(v, y);
    RunsOfGapFirst(g, v + y);
    RunsOfWordFirst(w, g + (v + y));
    CollapseKeeps(w, g, t);
    RenderCons(Word(w), [Gap(g)] + CollapseRuns(t));
    RenderCons(Gap(g), CollapseRuns(t));
  }

  /** A word followed, across a separator, by itself up to case: the
      separator and the repeat go. */
  lemma DropsWordAfter(w: string, g: string, v: string, y: string)
    requires IsWord(w) && IsGap(g) && IsWord(v) && (|y| == 0 || !IsWordChar(y[0]))
    requires SameWord(v, w)
    ensures RemoveConsecutiveDuplicates(w + (g + (v + y))) == RemoveConsecutiveDuplicates(w + y)
  {
    var t := Runs(v + y);
    RunsOfWordFirst(v, y);
    RunsOfGapFirst(g, v + y);
    RunsOfWordFirst(w, g + (v + y));
    RunsOfWordFirst(w, y);
    SliceOfCons(Word(v), Runs(y));
    CollapseDrops(w, g, t);
  }

  /** Words separated by one separator, none of them equal up to case to
      the word before it, come back unchanged. */
  lemma {:induction false} DistinctNeighboursKept(s: string, ws: seq<string>, g: string)
    requires |ws| > 0 && IsGap(g) && s == Join(ws, g)
    requires forall i :: 0 <= i < |ws| ==> IsWord(ws[i])
    requires forall i :: 0 < i < |ws| ==> !SameWord(ws[i], ws[i - 1])
    ensures RemoveConsecutiveDuplicates(s) == s
    decreases |ws|
  {
    if |ws| == 1 {
      LoneWord(ws[0]);
    } else {
      var y := if |ws| == 2 then "" else g + Join(ws[2..], g);
      JoinStep(ws, g);
      DistinctNeighboursKept(Join(ws[1..], g), ws[1..], g);
      KeepsWordAfter(ws[0], g, ws[1], y);
    }
  }

  /** Words separated by one separator, every one equal up to case to the
      first, collapse to the first. */
  lemma {:induction false} RepeatsOfFirstCollapse(s: string, ws: seq<string>, g: string)
    requires |ws| > 0 && IsGap(g) && s == Join(ws, g)
    requires forall i :: 0 <= i < |ws| ==> IsWord(ws[i]) && SameWord(ws[i], ws[0])
    ensures RemoveConsecutiveDuplicates(s) == ws[0]
    decreases |ws|
  {
    if |ws| == 1 {
      LoneWord(ws[0]);
    } else {
      var shorter := [ws[0]] + ws[2..];
      var y := if |ws| == 2 then "" else g + Join(ws[2..], g);
      JoinStep(ws, g);
      ShorterJoin(ws, g);
      forall i | 0 <= i < |shorter|
        ensures IsWord(shorter[i]) && SameWord(shorter[i], shorter[0])
      {
        if i > 0 {
          assert shorter[i] == ws[i + 1];
        }
      }
      RepeatsOfFirstCollapse(ws[0] + y, shorter, g);
      DropsWordAfter(ws[0], g, ws[1], y);
    }
  }

  /** Leaving out the second word of a join leaves the first followed by
      what came after the second. */
  lemma ShorterJoin(ws: seq<string>, g: string)
    requires |ws| > 1
    ensures Join([ws[0]] + ws[2..], g) == ws[0] + (if |ws| == 2 then "" else g + Join(ws[2..], g))
  {
    var shorter := [ws[0]] + ws[2..];
    if |ws| == 2 {
      assert shorter == [ws[0]];
      assert ws[0] + "" == ws[0];
    } else {
      assert shorter[1..] == ws[2..];
      ConcatAssoc(ws[0], g, Join(ws[2..], g));
    }
  }

  /** The join of two or more words: the first, the separator, and the
      second word followed by the rest. */
  lemma JoinStep(ws: seq<string>, g: string)
    requires |ws| > 0
    ensures |ws| == 1 ==> Join(ws, g) == ws[0]
    ensures |ws| == 2 ==> Join(ws, g) == ws[0] + (g + (ws[1] + ""))
    ensures |ws| > 2 ==> Join(ws, g) == ws[0] + (g + (ws[1] + (g + Join(ws[2..], g))))
    ensures |ws| > 1 ==> Join(ws[1..], g) == ws[1] + (if |ws| == 2 then "" else g + Join(ws[2..], g))
  {
    if |ws| > 1 {
      ConcatAssoc(ws[0], g, Join(ws[1..], g));
      assert ws[1] + "" == ws[1];
      if |ws| > 2 {
        assert ws[1..][1..] == ws[2..];
        ConcatAssoc(ws[1], g, Join(ws[2..], g));
      }
    }
  }

  // ---------------------------------------------------------------------
  // The rows of the unit tests, each for the text `s` of the row

  lemma RowSingleWord(s: string)
    requires s == "word" || s == ""
    ensures RemoveConsecutiveDuplicates(s) == s
  {
    if s != "" {
      LoneWord(s);
    }
  }

  /** A word written twice with nothing between is one longer word. */
  lemma RowRepeatNotSeparated(s: string)
    requires s == "wordword"
    ensures RemoveConsecutiveDuplicates(s) == s
  {
    LoneWord(s);
  }

  lemma RowRepeatedWord(s: string)
    requires s == "word word"
    ensures RemoveConsecutiveDuplicates(s) == "word"
  {
    RepeatsOfFirstCollapse(s, ["word", "word"], " ");
  }

  /** A repeat spelt in another case is still a repeat: the first
      spelling is the one kept. */
  lemma RowRepeatedWordOtherCase(s: string)
    requires s == "Word word"
    ensures s[..4] != s[5..] && RemoveConsecutiveDuplicates(s) == s[..4]
  {
    RepeatsOfFirstCollapse(s, ["Word", "word"], " ");
    assert s[..4] == "Word";
  }

  /** The separator before a dropped repeat may hold punctuation. */
  lemma RowCommaSeparated(s: string)
    requires s == "word, word"
    ensures s[4] == ',' && RemoveConsecutiveDuplicates(s) == s[..4]
  {
    RepeatsOfFirstCollapse(s, ["word", "word"], ", ");
    assert s[..4] == "word";
  }

  lemma RowThreeTimes(s: string)
    requires s == "Word word word"
    ensures RemoveConsecutiveDuplicates(s) == "Word"
  {
    RepeatsOfFirstCollapse(s, ["Word", "word", "word"], " ");
  }

  lemma RowDistinctWords(s: string)
    requires s == "Hello word"
    ensures RemoveConsecutiveDuplicates(s) == s
  {
    DistinctNeighboursKept(s, ["Hello", "word"], " ");
  }

  /** A word is not repeated by a longer word that starts with it, nor by a
      shorter one it starts with. */
  lemma RowPrefixWords(s: string)
    requires s == "words word" || s == "word words"
    ensures RemoveConsecutiveDuplicates(s) == s
  {
    if s == "words word" {
      DistinctNeighboursKept(s, ["words", "word"], " ");
    } else {
      DistinctNeighboursKept(s, ["word", "words"], " ");
    }
  }

  /** A repeat one word apart is not consecutive. */
  lemma RowRepeatOneApart(s: string)
    requires s == "word to word"
    ensures RemoveConsecutiveDuplicates(s) == s
  {
    DistinctNeighboursKept(s, ["word", "to", "word"], " ");
  }

  lemma FarApartWords(ws: seq<string>)
    requires ws == ["My", "word", "is", "not", "your", "word"]
    ensures forall i :: 0 <= i < |ws| ==> IsWord(ws[i])
    ensures forall i :: 0 < i < |ws| ==> !SameWord(ws[i], ws[i - 1])
  {
  }

  /** Repeats that are not adjacent stay: "My word is not your word". */
  lemma RowRepeatFarApart(ws: seq<string>)
    requires ws == ["My", "word", "is", "not", "your", "word"]
    ensures RemoveConsecutiveDuplicates(Join(ws, " ")) == Join(ws, " ")
  {
    FarApartWords(ws);
    DistinctNeighboursKept(Join(ws, " "), ws, " ");
  }
}
