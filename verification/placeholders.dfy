/** Numbered placeholders `{n}` in explanation templates and error messages.

    The translator finds them with the pattern `\{\s*(\d+)\s*\}` (ASCII
    classes) and replaces each found text everywhere with QString::replace,
    one after the other; the error messages replace the canonical texts
    "{1}", "{2}", ... in the same sequential way. This module defines the
    match at the head of a string, the left-to-right scan of all matches,
    the sequential replacement, and an independent single-pass
    substitution, and proves that the two replacements agree whenever every
    '{' of the text opens a placeholder and no replacement contains '{'. */
module Placeholders {
  import opened Wrappers
  import opened Strings

  /** PCRE `\s` without Unicode properties. */
  predicate IsSpace(c: char) {
    c == ' ' || c == '\t' || c == '\n' || c == '\r' || c == '\U{000B}' || c == '\U{000C}'
  }

  /** A match of the pattern: its whole text and its captured digits. */
  datatype Placeholder = Placeholder(text: string, digits: string)

  /** End of the run of white space starting at `i`. */
  function SpacesFrom(s: string, i: nat): (j: nat)
    requires i <= |s|
    ensures i <= j <= |s|
    ensures forall k :: i <= k < j ==> IsSpace(s[k])
    ensures j < |s| ==> !IsSpace(s[j])
    decreases |s| - i
  {
    if i < |s| && IsSpace(s[i]) then SpacesFrom(s, i + 1) else i
  }

  /** End of the run of decimal digits starting at `i`. */
  function DigitsFrom(s: string, i: nat): (j: nat)
    requires i <= |s|
    ensures i <= j <= |s|
    ensures forall k :: i <= k < j ==> IsDigit(s[k])
    ensures j < |s| ==> !IsDigit(s[j])
    decreases |s| - i
  {
    if i < |s| && IsDigit(s[i]) then DigitsFrom(s, i + 1) else i
  }

  /** The match that starts at the first character of `s`, if any. The
      pattern has no alternatives, so the greedy runs are the only way to
      match and no backtracking changes the answer. */
  function PlaceholderAt(s: string): (r: Option<Placeholder>)
    ensures |s| == 0 || s[0] != '{' ==> r.None?
    ensures r.Some? ==>
      3 <= |r.value.text| <= |s| && r.value.text == s[..|r.value.text|] &&
      r.value.text[0] == '{' && r.value.text[|r.value.text| - 1] == '}' &&
      Lacks(r.value.text[1..], '{') &&
      |r.value.digits| > 0 && AllDigits(r.value.digits)
  {
    if |s| == 0 || s[0] != '{' then None
    else
      var a := SpacesFrom(s, 1);
      var e := DigitsFrom(s, a);
      var b := SpacesFrom(s, e);
      if a < e && b < |s| && s[b] == '}' then
        var text := s[..b + 1];
        assert Lacks(text[1..], '{') by {
          forall k | 0 <= k < |text[1..]| ensures text[1..][k] != '{' {
            assert text[1..][k] == s[k + 1];
          }
        }
        Some(Placeholder(text, s[a..e]))
      else None
  }

  /** `t` is, as a whole, one match of the pattern. */
  predicate IsPlaceholderText(t: string) {
    PlaceholderAt(t).Some? && PlaceholderAt(t).value.text == t
  }

  /** All matches of the pattern, left to right, the scan resuming after
      each match (QRegularExpression::globalMatch). */
  function Scan(s: string): (ms: seq<Placeholder>)
    ensures forall k :: 0 <= k < |ms| ==> IsPlaceholderText(ms[k].text)
    decreases |s|
  {
    if |s| == 0 then []
    else match PlaceholderAt(s)
      case Some(p) =>
        PlaceholderIsItsText(s);
        [p] + Scan(s[|p.text|..])
      case None => Scan(s[1..])
  }

  /** Every '{' of `s` opens a placeholder. */
  predicate WellBraced(s: string) {
    forall i :: 0 <= i < |s| && s[i] == '{' ==> PlaceholderAt(s[i..]).Some?
  }

  /** The replacement of the first pair whose text is `t`; `t` itself when
      there is none. */
  function Lookup(pairs: seq<(string, string)>, t: string): (r: string)
    ensures (forall k :: 0 <= k < |pairs| ==> pairs[k].0 != t) ==> r == t
  {
    if |pairs| == 0 then t
    else if pairs[0].0 == t then pairs[0].1
    else Lookup(pairs[1..], t)
  }

  predicate NonEmptyKeys(pairs: seq<(string, string)>) {
    forall k :: 0 <= k < |pairs| ==> |pairs[k].0| > 0
  }

  /** QString::replace applied once per pair, in order, each on the result
      of the previous one. */
  function SeqReplace(s: string, pairs: seq<(string, string)>): string
    requires NonEmptyKeys(pairs)
    decreases |pairs|
  {
    if |pairs| == 0 then s
    else SeqReplace(ReplaceAll(s, pairs[0].0, pairs[0].1), pairs[1..])
  }

  /** One left-to-right pass over the text: every match is replaced by its
      looked-up replacement and nothing produced is looked at again. */
  function Substitute(s: string, pairs: seq<(string, string)>): string
    decreases |s|
  {
    if |s| == 0 then ""
    else match PlaceholderAt(s)
      case Some(p) => Lookup(pairs, p.text) + Substitute(s[|p.text|..], pairs)
      case None => [s[0]] + Substitute(s[1..], pairs)
  }

  // ---------------------------------------------------------------------
  // A match depends only on the characters it covers.

  lemma {:induction false} SpacesFromAgree(s: string, t: string, i: nat, k: nat)
    requires i <= |s| && SpacesFrom(s, i) < k <= |s| && k <= |t| && s[..k] == t[..k]
    ensures i <= |t| && SpacesFrom(t, i) == SpacesFrom(s, i)
    decreases |s| - i
  {
    assert s[..k][i] == s[i] && t[..k][i] == t[i];
    if IsSpace(s[i]) {
      SpacesFromAgree(s, t, i + 1, k);
    }
  }

  lemma {:induction false} DigitsFromAgree(s: string, t: string, i: nat, k: nat)
    requires i <= |s| && DigitsFrom(s, i) < k <= |s| && k <= |t| && s[..k] == t[..k]
    ensures i <= |t| && DigitsFrom(t, i) == DigitsFrom(s, i)
    decreases |s| - i
  {
    assert s[..k][i] == s[i] && t[..k][i] == t[i];
    if IsDigit(s[i]) {
      DigitsFromAgree(s, t, i + 1, k);
    }
  }

  /** Any text that begins with the characters of a match begins with the
      same match. */
  lemma PlaceholderAtAgree(s: string, t: string)
    requires PlaceholderAt(s).Some?
    requires |PlaceholderAt(s).value.text| <= |t|
    requires t[..|PlaceholderAt(s).value.text|] == PlaceholderAt(s).value.text
    ensures PlaceholderAt(t) == PlaceholderAt(s)
  {
    var k := |PlaceholderAt(s).value.text|;
    assert s[..k] == t[..k];
    assert t[0] == t[..k][0] == s[0];
    var a := SpacesFrom(s, 1);
    var e := DigitsFrom(s, a);
    var b := SpacesFrom(s, e);
    assert b + 1 == k;
    SpacesFromAgree(s, t, 1, k);
    DigitsFromAgree(s, t, a, k);
    SpacesFromAgree(s, t, e, k);
    assert t[b] == t[..k][b] == s[..k][b] == s[b];
    SliceAgree(s, t, 0, b + 1, k);
    SliceAgree(s, t, a, e, k);
    assert t[..b + 1] == t[0..b + 1] && s[..b + 1] == s[0..b + 1];
  }

  lemma SliceAgree(s: string, t: string, i: nat, j: nat, k: nat)
    requires i <= j <= k <= |s| && k <= |t| && s[..k] == t[..k]
    ensures s[i..j] == t[i..j]
  {
    forall m | i <= m < j
      ensures s[m] == t[m]
    {
      assert s[m] == s[..k][m] && t[m] == t[..k][m];
    }
  }

  lemma PlaceholderIsItsText(s: string)
    requires PlaceholderAt(s).Some?
    ensures IsPlaceholderText(PlaceholderAt(s).value.text)
  {
    var p := PlaceholderAt(s).value;
    assert p.text[..|p.text|] == p.text;
    PlaceholderAtAgree(s, p.text);
  }

  /** A placeholder text followed by anything is matched as itself. */
  lemma PlaceholderAtFront(pt: string, y: string)
    requires IsPlaceholderText(pt)
    ensures PlaceholderAt(pt + y) == PlaceholderAt(pt)
    ensures (pt + y)[|pt|..] == y
  {
    assert (pt + y)[..|pt|] == pt;
    PlaceholderAtAgree(pt, pt + y);
  }

  /** Whenever a placeholder text `t` occurs at the head of `s`, the match
      at the head of `s` is `t` itself: two different placeholder texts
      never match at the same place. */
  lemma MatchDeterminesText(s: string, t: string)
    requires IsPlaceholderText(t)
    ensures |t| <= |s| && s[..|t|] == t ==>
      PlaceholderAt(s).Some? && PlaceholderAt(s).value.text == t
  {
    if |t| <= |s| && s[..|t|] == t {
      PlaceholderAtAgree(t, s);
    }
  }

  // ---------------------------------------------------------------------
  // Well-bracedness

  lemma WellBracedSuffix(s: string, k: nat)
    requires WellBraced(s) && k <= |s|
    ensures WellBraced(s[k..])
  {
    var u := s[k..];
    forall i | 0 <= i < |u| && u[i] == '{'
      ensures PlaceholderAt(u[i..]).Some?
    {
      assert u[i] == s[k + i];
      assert u[i..] == s[k + i..];
    }
  }

  lemma WellBracedAfterPlain(x: string, y: string)
    requires Lacks(x, '{') && WellBraced(y)
    ensures WellBraced(x + y)
  {
    var u := x + y;
    forall i | 0 <= i < |x|
      ensures u[i] != '{'
    {
      assert u[i] == x[i];
    }
    forall i | |x| <= i < |u| && u[i] == '{'
      ensures PlaceholderAt(u[i..]).Some?
    {
      assert u[i] == y[i - |x|];
      assert u[i..] == y[i - |x|..];
    }
  }

  lemma WellBracedAfterPlaceholder(pt: string, y: string)
    requires IsPlaceholderText(pt) && WellBraced(y)
    ensures WellBraced(pt + y)
  {
    var u := pt + y;
    PlaceholderAtFront(pt, y);
    WellBracedAfterPlain(pt[1..], y);
    assert u[1..] == pt[1..] + y;
    forall i | 0 <= i < |u| && u[i] == '{'
      ensures PlaceholderAt(u[i..]).Some?
    {
      if i > 0 {
        assert u[1..][i - 1] == u[i];
        assert u[1..][i - 1..] == u[i..];
      } else {
        assert u[i..] == u;
      }
    }
  }

  // ---------------------------------------------------------------------
  // Single-pass substitution over concatenations

  lemma {:induction false} SubstitutePlain(x: string, y: string, pairs: seq<(string, string)>)
    requires Lacks(x, '{')
    ensures Substitute(x + y, pairs) == x + Substitute(y, pairs)
    decreases |x|
  {
    if |x| > 0 {
      var u := x + y;
      var r := Substitute(y, pairs);
      assert u[0] == x[0] != '{';
      assert u[1..] == x[1..] + y;
      assert Substitute(u, pairs) == [u[0]] + Substitute(u[1..], pairs);
      SubstitutePlain(x[1..], y, pairs);
      ConcatAssoc([x[0]], x[1..], r);
      assert [x[0]] + x[1..] == x;
    } else {
      assert x + y == y;
    }
  }

  lemma SubstituteAtPlaceholder(pt: string, y: string, pairs: seq<(string, string)>)
    requires IsPlaceholderText(pt)
    ensures Substitute(pt + y, pairs) == Lookup(pairs, pt) + Substitute(y, pairs)
  {
    PlaceholderAtFront(pt, y);
  }

  // ---------------------------------------------------------------------
  // Sequential replacement versus single-pass substitution

  /** Text that opens with '{' but does not start with `t`, followed by
      brace-free text, is copied up to its first character unchanged. */
  lemma ReplaceAllPastOpening(x: string, tail: string, t: string, a: string)
    requires 0 < |x| && 0 < |t| && t[0] == x[0] && Lacks(x[1..], t[0])
    requires !(|t| <= |x + tail| && (x + tail)[..|t|] == t)
    ensures ReplaceAll(x + tail, t, a) == x + ReplaceAll(tail, t, a)
  {
    var s := x + tail;
    ReplaceAllStep(s, t, a);
    assert s[0] == x[0] && s[1..] == x[1..] + tail;
    ReplaceAllSkipsPrefix(x[1..], tail, t, a);
    ConcatAssoc([x[0]], x[1..], ReplaceAll(tail, t, a));
    assert [x[0]] + x[1..] == x;
  }

  /** At a match other than `t`, the replacement copies the match and
      carries on after it. */
  lemma ReplaceAtOtherPlaceholder(s: string, t: string, a: string)
    requires IsPlaceholderText(t) && PlaceholderAt(s).Some?
    requires PlaceholderAt(s).value.text != t
    ensures ReplaceAll(s, t, a) ==
      PlaceholderAt(s).value.text + ReplaceAll(s[|PlaceholderAt(s).value.text|..], t, a)
  {
    var qt := PlaceholderAt(s).value.text;
    var tail := s[|qt|..];
    SplitAt(s, |qt|);
    MatchDeterminesText(s, t);
    ReplaceAllPastOpening(qt, tail, t, a);
  }

  /** The three cases of ReplaceThenSubstitute, each given the claim for
      the rest of the text. */
  lemma ReplaceThenSubstituteMatch(s: string, tail: string, t: string, a: string, rest: seq<(string, string)>)
    requires IsPlaceholderText(t) && Lacks(a, '{') && s == t + tail
    requires WellBraced(ReplaceAll(tail, t, a))
    requires Substitute(ReplaceAll(tail, t, a), rest) == Substitute(tail, [(t, a)] + rest)
    ensures WellBraced(ReplaceAll(s, t, a))
    ensures Substitute(ReplaceAll(s, t, a), rest) == Substitute(s, [(t, a)] + rest)
  {
    var rt := ReplaceAll(tail, t, a);
    ReplaceAllAtFront(tail, t, a);
    SubstitutePlain(a, rt, rest);
    WellBracedAfterPlain(a, rt);
    SubstituteAtPlaceholder(t, tail, [(t, a)] + rest);
  }

  lemma ReplaceThenSubstituteOther(s: string, t: string, a: string, rest: seq<(string, string)>)
    requires IsPlaceholderText(t) && PlaceholderAt(s).Some? && PlaceholderAt(s).value.text != t
    requires var tail := s[|PlaceholderAt(s).value.text|..];
      WellBraced(ReplaceAll(tail, t, a)) &&
      Substitute(ReplaceAll(tail, t, a), rest) == Substitute(tail, [(t, a)] + rest)
    ensures WellBraced(ReplaceAll(s, t, a))
    ensures Substitute(ReplaceAll(s, t, a), rest) == Substitute(s, [(t, a)] + rest)
  {
    var qt := PlaceholderAt(s).value.text;
    var tail := s[|qt|..];
    var rt := ReplaceAll(tail, t, a);
    var pairs := [(t, a)] + rest;
    PlaceholderIsItsText(s);
    assert ReplaceAll(s, t, a) == qt + rt by {
      ReplaceAtOtherPlaceholder(s, t, a);
    }
    WellBracedAfterPlaceholder(qt, rt);
    assert Substitute(qt + rt, rest) == Lookup(rest, qt) + Substitute(rt, rest) by {
      SubstituteAtPlaceholder(qt, rt, rest);
    }
    assert Substitute(s, pairs) == Lookup(pairs, qt) + Substitute(tail, pairs) by {
      assert qt == s[..|qt|];
      SplitAt(s, |qt|);
      SubstituteAtPlaceholder(qt, tail, pairs);
    }
    assert Lookup(pairs, qt) == Lookup(rest, qt) by {
      assert pairs[0].0 == t && pairs[1..] == rest;
    }
    calc {
      Substitute(ReplaceAll(s, t, a), rest);
      Lookup(rest, qt) + Substitute(rt, rest);
      Lookup(pairs, qt) + Substitute(tail, pairs);
      Substitute(s, pairs);
    }
  }

  lemma ReplaceThenSubstitutePlain(s: string, t: string, a: string, rest: seq<(string, string)>)
    requires IsPlaceholderText(t) && |s| > 0 && s[0] != '{'
    requires WellBraced(ReplaceAll(s[1..], t, a))
    requires Substitute(ReplaceAll(s[1..], t, a), rest) == Substitute(s[1..], [(t, a)] + rest)
    ensures WellBraced(ReplaceAll(s, t, a))
    ensures Substitute(ReplaceAll(s, t, a), rest) == Substitute(s, [(t, a)] + rest)
  {
    var rt := ReplaceAll(s[1..], t, a);
    assert Lacks([s[0]], '{') && [s[0]] + s[1..] == s;
    ReplaceAllSkipsPrefix([s[0]], s[1..], t, a);
    SubstitutePlain([s[0]], rt, rest);
    WellBracedAfterPlain([s[0]], rt);
    SubstitutePlain([s[0]], s[1..], [(t, a)] + rest);
  }

  /** Replacing every occurrence of one placeholder text and then
      substituting the rest in one pass is the same as substituting all of
      them in one pass with that pair looked up first; the replacement
      keeps the text well-braced. */
  lemma {:induction false} ReplaceThenSubstitute(s: string, t: string, a: string, rest: seq<(string, string)>)
    requires WellBraced(s) && IsPlaceholderText(t) && Lacks(a, '{')
    ensures WellBraced(ReplaceAll(s, t, a))
    ensures Substitute(ReplaceAll(s, t, a), rest) == Substitute(s, [(t, a)] + rest)
    decreases |s|
  {
    if |s| == 0 {
      assert |s| < |t|;
      assert ([(t, a)] + rest)[1..] == rest;
    } else if PlaceholderAt(s).Some? {
      var q := PlaceholderAt(s).value;
      var tail := s[|q.text|..];
      WellBracedSuffix(s, |q.text|);
      ReplaceThenSubstitute(tail, t, a, rest);
      if q.text == t {
        SplitAt(s, |t|);
        ReplaceThenSubstituteMatch(s, tail, t, a, rest);
      } else {
        ReplaceThenSubstituteOther(s, t, a, rest);
      }
    } else {
      assert s[0..] == s;
      WellBracedSuffix(s, 1);
      ReplaceThenSubstitute(s[1..], t, a, rest);
      ReplaceThenSubstitutePlain(s, t, a, rest);
    }
  }

  /** Pairs whose texts are placeholder texts and whose replacements
      contain no '{'. */
  predicate PlaceholderPairs(pairs: seq<(string, string)>) {
    forall k :: 0 <= k < |pairs| ==> IsPlaceholderText(pairs[k].0) && Lacks(pairs[k].1, '{')
  }

  lemma PlaceholderPairsHaveKeys(pairs: seq<(string, string)>)
    requires PlaceholderPairs(pairs)
    ensures NonEmptyKeys(pairs)
  {
  }

  /** On a well-braced text, replacing placeholder texts one after the other
      is a single left-to-right substitution in which each match takes the
      replacement of the first pair naming it: no replacement is rescanned
      and no pair is affected by an earlier one. */
  lemma {:induction false} SeqReplaceIsSubstitute(s: string, pairs: seq<(string, string)>)
    requires WellBraced(s) && PlaceholderPairs(pairs)
    ensures NonEmptyKeys(pairs) && SeqReplace(s, pairs) == Substitute(s, pairs)
    decreases |pairs|
  {
    if |pairs| == 0 {
      SubstituteNothing(s);
    } else {
      var t, a := pairs[0].0, pairs[0].1;
      var rest := pairs[1..];
      assert PlaceholderPairs(rest) by {
        forall k | 0 <= k < |rest|
          ensures IsPlaceholderText(rest[k].0) && Lacks(rest[k].1, '{')
        {
          assert rest[k] == pairs[k + 1];
        }
      }
      assert IsPlaceholderText(t) && Lacks(a, '{');
      ReplaceThenSubstitute(s, t, a, rest);
      SeqReplaceIsSubstitute(ReplaceAll(s, t, a), rest);
      PlaceholderPairsHaveKeys(pairs);
      assert SeqReplace(s, pairs) == SeqReplace(ReplaceAll(s, t, a), rest);
      assert [(t, a)] + rest == pairs;
    }
  }

  /** With no pairs every match stands for itself. */
  lemma {:induction false} SubstituteNothing(s: string)
    ensures Substitute(s, []) == s
    decreases |s|
  {
    if |s| > 0 {
      match PlaceholderAt(s)
      case Some(p) =>
        var tail := s[|p.text|..];
        SubstituteNothing(tail);
        assert Lookup([], p.text) == p.text;
        assert Substitute(s, []) == p.text + tail;
        SplitAt(s, |p.text|);
      case None =>
        SubstituteNothing(s[1..]);
        assert Substitute(s, []) == [s[0]] + s[1..];
        assert s == [s[0]] + s[1..];
    }
  }

  /** Text without '{' contains no match and is never changed by a
      replacement of placeholder texts. */
  lemma {:induction false} NoBraceNoMatch(s: string)
    requires Lacks(s, '{')
    ensures Scan(s) == [] && WellBraced(s)
    decreases |s|
  {
    if |s| > 0 {
      NoBraceNoMatch(s[1..]);
    }
  }

  // ---------------------------------------------------------------------
  // Canonical placeholders "{1}", "{2}", ...

  function Canonical(n: nat): string {
    "{" + NatToString(n) + "}"
  }

  lemma {:induction false} DigitsFromOverNumeral(s: string, i: nat, j: nat)
    requires i <= j < |s| && !IsDigit(s[j])
    requires forall k :: i <= k < j ==> IsDigit(s[k])
    ensures DigitsFrom(s, i) == j
    decreases j - i
  {
    if i < j {
      DigitsFromOverNumeral(s, i + 1, j);
    }
  }

  /** "{n}" is matched as itself, capturing the numeral of n. */
  lemma CanonicalIsPlaceholder(n: nat)
    ensures IsPlaceholderText(Canonical(n))
    ensures PlaceholderAt(Canonical(n)).value.digits == NatToString(n)
  {
    var d := NatToString(n);
    var s := Canonical(n);
    assert s[1] == d[0];
    assert SpacesFrom(s, 1) == 1;
    assert s[|d| + 1] == '}';
    DigitsFromOverNumeral(s, 1, |d| + 1);
    assert SpacesFrom(s, |d| + 1) == |d| + 1;
    assert s[..|d| + 2] == s;
    assert s[1..|d| + 1] == d;
  }

  lemma CanonicalInjective(m: nat, n: nat)
    requires Canonical(m) == Canonical(n)
    ensures m == n
  {
    var x, y := Canonical(m), Canonical(n);
    assert |NatToString(m)| == |NatToString(n)|;
    assert NatToString(m) == x[1..|x| - 1] == y[1..|y| - 1] == NatToString(n);
    NatToStringInjective(m, n);
  }
}
