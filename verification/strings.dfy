/** The string primitives of Qt that the core relies on, stated over
    `seq<char>`: character classes, QString::replace (all non-overlapping
    occurrences, left to right), QStringList::join, the decimal rendering
    of QString::number, QString::toInt, and QString::split on a single space
    with empty parts skipped. */
module Strings {
  import opened Wrappers

  /** Qt's `int` range; QString::toInt answers 0 for anything outside it. */
  const IntMax: int := 0x7FFF_FFFF
  const IntMin: int := -0x8000_0000

  predicate IsLatinLetter(c: char) {
    ('a' <= c <= 'z') || ('A' <= c <= 'Z')
  }

  predicate IsDigit(c: char) {
    '0' <= c <= '9'
  }

  predicate AllDigits(s: string) {
    forall i :: 0 <= i < |s| ==> IsDigit(s[i])
  }

  /** `c` does not occur anywhere in `s`. */
  predicate Lacks(s: string, c: char) {
    forall j :: 0 <= j < |s| ==> s[j] != c
  }

  predicate InfixAt(s: string, t: string, i: int) {
    0 <= i <= |s| - |t| && s[i..i + |t|] == t
  }

  predicate Contains(s: string, t: string) {
    exists i | 0 <= i <= |s| - |t| :: InfixAt(s, t, i)
  }

  lemma NotContainsByChar(s: string, t: string, k: nat)
    requires k < |t| && Lacks(s, t[k])
    ensures !Contains(s, t)
  {
    forall i | 0 <= i <= |s| - |t|
      ensures !InfixAt(s, t, i)
    {
      assert s[i..i + |t|][k] == s[i + k] != t[k];
    }
  }

  /** Concatenation regrouped, for contexts where extensionality is costly. */
  lemma ConcatAssoc(a: string, b: string, c: string)
    ensures a + (b + c) == (a + b) + c
  {
  }

  /** A text is its prefix followed by the rest. */
  lemma SplitAt(s: string, k: nat)
    requires k <= |s|
    ensures s[..k] + s[k..] == s
  {
  }

  lemma LacksConcat(x: string, y: string, c: char)
    requires Lacks(x, c) && Lacks(y, c)
    ensures Lacks(x + y, c)
  {
    forall j | 0 <= j < |x + y|
      ensures (x + y)[j] != c
    {
      if j < |x| {
        assert (x + y)[j] == x[j];
      } else {
        assert (x + y)[j] == y[j - |x|];
      }
    }
  }

  // ---------------------------------------------------------------------
  // QString::length: QString holds UTF-16, so a character beyond U+FFFF is
  // stored as a surrogate pair and counts twice.

  predicate IsSupplementary(c: char) {
    c > '\U{FFFF}'
  }

  function Utf16Units(c: char): (n: nat)
    ensures n == 1 || n == 2
  {
    if IsSupplementary(c) then 2 else 1
  }

  function Utf16Length(s: string): (n: nat)
    ensures |s| <= n <= 2 * |s|
    ensures n == 0 <==> |s| == 0
  {
    if |s| == 0 then 0 else Utf16Length(s[..|s| - 1]) + Utf16Units(s[|s| - 1])
  }

  /** The length in code units adds up over concatenation. */
  lemma {:induction false} Utf16LengthConcat(a: string, b: string)
    ensures Utf16Length(a + b) == Utf16Length(a) + Utf16Length(b)
    decreases |b|
  {
    if |b| == 0 {
      assert a + b == a;
    } else {
      var b' := b[..|b| - 1];
      Utf16LengthConcat(a, b');
      assert (a + b)[..|a + b| - 1] == a + b';
      assert (a + b)[|a + b| - 1] == b[|b| - 1];
    }
  }

  /** Code units and characters agree exactly when no character lies
      beyond U+FFFF. */
  lemma {:induction false} Utf16LengthOfBmp(s: string)
    ensures Utf16Length(s) == |s| <==> forall k :: 0 <= k < |s| ==> !IsSupplementary(s[k])
    decreases |s|
  {
    if |s| > 0 {
      var t := s[..|s| - 1];
      Utf16LengthOfBmp(t);
      assert forall k :: 0 <= k < |t| ==> t[k] == s[k];
      if !IsSupplementary(s[|s| - 1]) && Utf16Length(s) != |s| {
        var k :| 0 <= k < |t| && IsSupplementary(t[k]);
        assert IsSupplementary(s[k]);
      }
    }
  }

  /** n characters beyond U+FFFF take 2n code units. */
  lemma {:induction false} Utf16LengthOfRepeat(c: char, n: nat)
    requires IsSupplementary(c)
    ensures Utf16Length(seq(n, _ => c)) == 2 * n
    decreases n
  {
    if n > 0 {
      var s := seq(n, _ => c);
      assert s[..n - 1] == seq(n - 1, _ => c);
      Utf16LengthOfRepeat(c, n - 1);
    }
  }

  // ---------------------------------------------------------------------
  // QString::replace(before, after): every non-overlapping occurrence,
  // scanning left to right; text produced by a replacement is not rescanned.

  function ReplaceAll(s: string, before: string, after: string): (r: string)
    requires |before| > 0
    decreases |s|
  {
    if |s| < |before| then s
    else if s[..|before|] == before then after + ReplaceAll(s[|before|..], before, after)
    else [s[0]] + ReplaceAll(s[1..], before, after)
  }

  /** A prefix none of whose characters can start an occurrence passes
      through a replacement untouched. */
  lemma {:induction false} ReplaceAllSkipsPrefix(x: string, y: string, before: string, after: string)
    requires |before| > 0 && Lacks(x, before[0])
    ensures ReplaceAll(x + y, before, after) == x + ReplaceAll(y, before, after)
    decreases |x|
  {
    if |x| > 0 {
      var s := x + y;
      assert s[0] == x[0] != before[0];
      assert s[1..] == x[1..] + y;
      ReplaceAllSkipsPrefix(x[1..], y, before, after);
      if |s| >= |before| {
        assert s[..|before|][0] == s[0];
        assert ReplaceAll(s, before, after) == [s[0]] + ReplaceAll(s[1..], before, after);
      } else {
        ReplaceAllShort(y, before, after);
        ReplaceAllShort(x[1..] + y, before, after);
      }
      assert [x[0]] + x[1..] == x;
    } else {
      assert x + y == y;
    }
  }

  lemma ReplaceAllShort(s: string, before: string, after: string)
    requires 0 < |before| && |s| < |before|
    ensures ReplaceAll(s, before, after) == s
  {
  }

  /** Without an occurrence at the very start, the first character is
      copied and scanning moves on by one. */
  lemma ReplaceAllStep(s: string, before: string, after: string)
    requires |before| > 0 && |s| > 0
    requires !(|before| <= |s| && s[..|before|] == before)
    ensures ReplaceAll(s, before, after) == [s[0]] + ReplaceAll(s[1..], before, after)
  {
    if |s| < |before| {
      ReplaceAllShort(s[1..], before, after);
      assert [s[0]] + s[1..] == s;
    }
  }

  /** An occurrence at the very start is replaced and scanning resumes
      after it. */
  lemma ReplaceAllAtFront(y: string, before: string, after: string)
    requires |before| > 0
    ensures ReplaceAll(before + y, before, after) == after + ReplaceAll(y, before, after)
  {
    var s := before + y;
    assert s[..|before|] == before;
    assert s[|before|..] == y;
  }

  /** Text with no occurrence of the first character of `before` is left
      exactly as it was. */
  lemma ReplaceAllAbsent(s: string, before: string, after: string)
    requires |before| > 0 && Lacks(s, before[0])
    ensures ReplaceAll(s, before, after) == s
  {
    ReplaceAllSkipsPrefix(s, [], before, after);
    assert s + [] == s;
  }

  // ---------------------------------------------------------------------
  // QStringList::join

  function Join(xs: seq<string>, sep: string): (r: string)
    ensures |xs| == 1 ==> r == xs[0]
  {
    if |xs| == 0 then ""
    else if |xs| == 1 then xs[0]
    else xs[0] + sep + Join(xs[1..], sep)
  }

  // ---------------------------------------------------------------------
  // Decimal numerals: QString::number for naturals and its inverse

  function DigitChar(d: nat): (c: char)
    requires d < 10
    ensures IsDigit(c) && c as int - '0' as int == d
  {
    ('0' as int + d) as char
  }

  function DigitsValue(s: string): (v: nat)
    requires AllDigits(s)
    decreases |s|
  {
    if |s| == 0 then 0
    else DigitsValue(s[..|s| - 1]) * 10 + (s[|s| - 1] as int - '0' as int)
  }

  /** The shortest decimal rendering of `n`: no leading zero unless `n` is 0. */
  function NatToString(n: nat): (r: string)
    ensures |r| > 0 && AllDigits(r)
    ensures r[0] == '0' <==> n == 0
    decreases n
  {
    if n < 10 then [DigitChar(n)] else NatToString(n / 10) + [DigitChar(n % 10)]
  }

  lemma {:induction false} NatToStringRoundTrip(n: nat)
    ensures DigitsValue(NatToString(n)) == n
    decreases n
  {
    if n >= 10 {
      var s := NatToString(n);
      NatToStringRoundTrip(n / 10);
      assert s[..|s| - 1] == NatToString(n / 10);
    }
  }

  lemma NatToStringInjective(m: nat, n: nat)
    requires NatToString(m) == NatToString(n)
    ensures m == n
  {
    NatToStringRoundTrip(m);
    NatToStringRoundTrip(n);
  }

  // ---------------------------------------------------------------------
  // QString::toInt: surrounding white space is skipped; what remains must be
  // an optional sign followed by ASCII digits, within the `int` range;
  // anything else, overflow included, yields 0.

  /** QChar::isSpace: the C0 controls tab to carriage return, U+0085, and
      the Unicode space, line and paragraph separators. */
  predicate IsWhiteSpace(c: char) {
    c == ' ' || ('\t' <= c <= '\r') || c == '\U{0085}' || c == '\U{00A0}' ||
    c == '\U{1680}' || ('\U{2000}' <= c <= '\U{200A}') || c == '\U{2028}' ||
    c == '\U{2029}' || c == '\U{202F}' || c == '\U{205F}' || c == '\U{3000}'
  }

  predicate AllWhiteSpace(s: string) {
    forall k :: 0 <= k < |s| ==> IsWhiteSpace(s[k])
  }

  function TrimStart(s: string): string
    decreases |s|
  {
    if |s| > 0 && IsWhiteSpace(s[0]) then TrimStart(s[1..]) else s
  }

  function TrimEnd(s: string): string
    decreases |s|
  {
    if |s| > 0 && IsWhiteSpace(s[|s| - 1]) then TrimEnd(s[..|s| - 1]) else s
  }

  /** TrimStart drops a white-space prefix and stops at a character that is
      not white space. */
  lemma {:induction false} TrimStartMeaning(s: string)
    ensures var r := TrimStart(s);
      |r| <= |s| && r == s[|s| - |r|..] && AllWhiteSpace(s[..|s| - |r|]) &&
      (|r| > 0 ==> !IsWhiteSpace(r[0]))
    decreases |s|
  {
    if |s| > 0 && IsWhiteSpace(s[0]) {
      TrimStartMeaning(s[1..]);
      var r := TrimStart(s);
      assert s[1..][|s| - 1 - |r|..] == s[|s| - |r|..];
    }
  }

  /** TrimEnd drops a white-space suffix and stops at a character that is
      not white space. */
  lemma {:induction false} TrimEndMeaning(s: string)
    ensures var r := TrimEnd(s);
      |r| <= |s| && r == s[..|r|] && AllWhiteSpace(s[|r|..]) &&
      (|r| > 0 ==> !IsWhiteSpace(r[|r| - 1]))
    decreases |s|
  {
    if |s| > 0 && IsWhiteSpace(s[|s| - 1]) {
      var t := s[..|s| - 1];
      TrimEndMeaning(t);
      var r := TrimEnd(s);
      assert t[..|r|] == s[..|r|];
      forall k | 0 <= k < |s| - |r| ensures IsWhiteSpace(s[|r|..][k]) {
        if k < |s| - 1 - |r| { assert s[|r|..][k] == t[|r|..][k]; }
      }
    }
  }

  /** `s[i..j]` is what remains of `s` once its leading and trailing white
      space is cut away. */
  predicate IsTrimmedSlice(s: string, i: nat, j: nat) {
    i <= j <= |s| && AllWhiteSpace(s[..i]) && AllWhiteSpace(s[j..]) &&
    (i < j ==> !IsWhiteSpace(s[i]) && !IsWhiteSpace(s[j - 1]))
  }

  /** QString::trimmed: the text between the leading and the trailing
      white space. */
  function Trim(s: string): string {
    TrimEnd(TrimStart(s))
  }

  /** Trimming cuts exactly the white space at both ends. */
  lemma TrimMeaning(s: string)
    ensures exists i: nat, j: nat :: IsTrimmedSlice(s, i, j) && Trim(s) == s[i..j]
  {
    var t := TrimStart(s);
    var r := TrimEnd(t);
    TrimStartMeaning(s);
    TrimEndMeaning(t);
    var i := |s| - |t|;
    assert r == s[i..i + |r|];
    assert s[i + |r|..] == t[|r|..];
    assert IsTrimmedSlice(s, i, i + |r|);
  }

  /** A character that is not white space lies inside the trimmed slice. */
  lemma NonWhiteSpaceInside(s: string, i: nat, j: nat, k: nat)
    requires IsTrimmedSlice(s, i, j) && k < |s| && !IsWhiteSpace(s[k])
    ensures i <= k < j
  {
  }

  /** Only one slice is left once white space is cut from both ends. */
  lemma TrimmedSliceUnique(s: string, i: nat, j: nat, i': nat, j': nat)
    requires IsTrimmedSlice(s, i, j) && IsTrimmedSlice(s, i', j')
    ensures i < j ==> i == i' && j == j'
    ensures i == j ==> i' == j'
  {
    if i < j {
      NonWhiteSpaceInside(s, i', j', i);
      NonWhiteSpaceInside(s, i', j', j - 1);
      NonWhiteSpaceInside(s, i, j, i');
      NonWhiteSpaceInside(s, i, j, j' - 1);
    } else if i' < j' {
      NonWhiteSpaceInside(s, i, j, i');
    }
  }

  /** Text whose ends are not white space is its own trimming. */
  lemma TrimKeeps(w: string)
    requires |w| > 0 ==> !IsWhiteSpace(w[0]) && !IsWhiteSpace(w[|w| - 1])
    ensures Trim(w) == w
  {
    assert w[..0] == [] && w[|w|..] == [] && w[0..|w|] == w;
    assert IsTrimmedSlice(w, 0, |w|);
    TrimMeaning(w);
    var i: nat, j: nat :| IsTrimmedSlice(w, i, j) && Trim(w) == w[i..j];
    TrimmedSliceUnique(w, 0, |w|, i, j);
  }

  /** Trimming text wrapped in white space gives the text back when its
      own ends are not white space. */
  lemma TrimSurrounded(pre: string, w: string, post: string)
    requires AllWhiteSpace(pre) && AllWhiteSpace(post)
    requires |w| > 0 ==> !IsWhiteSpace(w[0]) && !IsWhiteSpace(w[|w| - 1])
    ensures Trim(pre + w + post) == w
  {
    var s := pre + w + post;
    assert s[..|pre|] == pre && s[|pre| + |w|..] == post && s[|pre|..|pre| + |w|] == w;
    assert IsTrimmedSlice(s, |pre|, |pre| + |w|);
    TrimMeaning(s);
    var i: nat, j: nat :| IsTrimmedSlice(s, i, j) && Trim(s) == s[i..j];
    TrimmedSliceUnique(s, |pre|, |pre| + |w|, i, j);
  }

  predicate IsSign(c: char) {
    c == '-' || c == '+'
  }

  /** The value the numeral denotes, when it is one, before the range check. */
  function NumeralValue(s: string): (v: Option<int>)
    ensures v.Some? <==>
      (|s| > 0 && AllDigits(s)) || (|s| > 1 && IsSign(s[0]) && AllDigits(s[1..]))
  {
    if |s| > 0 && AllDigits(s) then Some(DigitsValue(s))
    else if |s| > 1 && IsSign(s[0]) && AllDigits(s[1..]) then
      var d: int := DigitsValue(s[1..]);
      Some(if s[0] == '-' then -d else d)
    else None
  }

  function ToInt(s: string): (v: int)
    ensures IntMin <= v <= IntMax
    ensures v != 0 ==> NumeralValue(Trim(s)) == Some(v)
    ensures NumeralValue(Trim(s)).Some? && IntMin <= NumeralValue(Trim(s)).value <= IntMax ==>
      v == NumeralValue(Trim(s)).value
  {
    var n := NumeralValue(Trim(s));
    if n.Some? && IntMin <= n.value <= IntMax then n.value else 0
  }

  lemma ToIntOfNat(n: nat)
    requires n <= IntMax
    ensures ToInt(NatToString(n)) == n
  {
    NatToStringRoundTrip(n);
    var w := NatToString(n);
    assert IsDigit(w[0]) && IsDigit(w[|w| - 1]);
    TrimKeeps(w);
  }

  /** White space around a numeral does not change what it reads as. */
  lemma ToIntSkipsWhiteSpace(pre: string, w: string, post: string)
    requires AllWhiteSpace(pre) && AllWhiteSpace(post)
    requires |w| > 0 ==> !IsWhiteSpace(w[0]) && !IsWhiteSpace(w[|w| - 1])
    ensures ToInt(pre + w + post) == ToInt(w)
  {
    var s := pre + w + post;
    assert Trim(s) == Trim(w) by {
      TrimSurrounded(pre, w, post);
      TrimKeeps(w);
    }
    ToIntReadsTrimmed(s, w);
  }

  /** A space before or a tab after a numeral leaves its value. */
  lemma ToIntSpacedRows(s: string, t: string)
    requires s == " 5" && t == "5\t"
    ensures ToInt(s) == 5 && ToInt(t) == 5
  {
    ToIntOfNat(5);
    assert NatToString(5) == "5";
    ToIntSkipsWhiteSpace(" ", "5", "");
    ToIntSkipsWhiteSpace("", "5", "\t");
    assert s == " " + "5" + "" && t == "" + "5" + "\t";
  }

  lemma ToIntReadsTrimmed(a: string, b: string)
    requires Trim(a) == Trim(b)
    ensures ToInt(a) == ToInt(b)
  {
  }

  // ---------------------------------------------------------------------
  // QString::split(' ', Qt::SkipEmptyParts)

  /** Length of the leading run of non-space characters. */
  function WordRun(s: string): (n: nat)
    ensures n <= |s|
    ensures Lacks(s[..n], ' ')
    ensures n < |s| ==> s[n] == ' '
    decreases |s|
  {
    if |s| == 0 || s[0] == ' ' then 0 else 1 + WordRun(s[1..])
  }

  function SplitOnSpace(s: string): (r: seq<string>)
    ensures forall k :: 0 <= k < |r| ==> |r[k]| > 0 && Lacks(r[k], ' ')
    decreases |s|
  {
    if |s| == 0 then []
    else if s[0] == ' ' then SplitOnSpace(s[1..])
    else
      var n := WordRun(s);
      [s[..n]] + SplitOnSpace(s[n..])
  }

  function Concat(xs: seq<string>): string {
    if |xs| == 0 then "" else xs[0] + Concat(xs[1..])
  }

  function RemoveSpaces(s: string): (r: string)
    ensures Lacks(r, ' ')
  {
    if |s| == 0 then ""
    else if s[0] == ' ' then RemoveSpaces(s[1..])
    else
      LacksConcat([s[0]], RemoveSpaces(s[1..]), ' ');
      [s[0]] + RemoveSpaces(s[1..])
  }

  lemma {:induction false} RemoveSpacesOfWord(w: string, y: string)
    requires Lacks(w, ' ')
    ensures RemoveSpaces(w + y) == w + RemoveSpaces(y)
    decreases |w|
  {
    if |w| > 0 {
      assert (w + y)[0] == w[0];
      assert (w + y)[1..] == w[1..] + y;
      RemoveSpacesOfWord(w[1..], y);
      assert [w[0]] + w[1..] == w;
    } else {
      assert w + y == y;
    }
  }

  /** Splitting keeps every non-space character, in order: the tokens put
      back together are the input with its spaces deleted. */
  lemma {:induction false} SplitKeepsContent(s: string)
    ensures Concat(SplitOnSpace(s)) == RemoveSpaces(s)
    decreases |s|
  {
    if |s| > 0 {
      if s[0] == ' ' {
        SplitKeepsContent(s[1..]);
      } else {
        var n := WordRun(s);
        var r := SplitOnSpace(s);
        SplitKeepsContent(s[n..]);
        assert r[1..] == SplitOnSpace(s[n..]);
        assert s == s[..n] + s[n..];
        RemoveSpacesOfWord(s[..n], s[n..]);
      }
    }
  }

  lemma {:induction false} WordRunOfWord(w: string, y: string)
    requires Lacks(w, ' ') && (|y| == 0 || y[0] == ' ')
    ensures WordRun(w + y) == |w|
    decreases |w|
  {
    if |w| > 0 {
      assert (w + y)[0] == w[0];
      assert (w + y)[1..] == w[1..] + y;
      WordRunOfWord(w[1..], y);
    } else {
      assert w + y == y;
    }
  }

  /** Joining non-empty space-free tokens with single spaces and splitting
      again gives back the same tokens. */
  lemma {:induction false} SplitJoinRoundTrip(toks: seq<string>)
    requires forall k :: 0 <= k < |toks| ==> |toks[k]| > 0 && Lacks(toks[k], ' ')
    ensures SplitOnSpace(Join(toks, " ")) == toks
    decreases |toks|
  {
    if |toks| == 1 {
      var w := toks[0];
      WordRunOfWord(w, "");
      assert w + "" == w;
      assert w[|w|..] == "";
    } else if |toks| > 1 {
      var w := toks[0];
      var rest := Join(toks[1..], " ");
      var sp := " " + rest;
      var s := w + sp;
      assert Join(toks, " ") == s by {
        ConcatAssoc(w, " ", rest);
      }
      WordRunOfWord(w, sp);
      assert s[..|w|] == w && s[|w|..] == sp;
      assert SplitOnSpace(s) == [w] + SplitOnSpace(sp);
      assert sp[0] == ' ' && sp[1..] == rest;
      assert forall k :: 0 <= k < |toks[1..]| ==> toks[1..][k] == toks[k + 1];
      SplitJoinRoundTrip(toks[1..]);
      assert [w] + toks[1..] == toks;
    }
  }
}
