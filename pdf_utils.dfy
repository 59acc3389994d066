/**
 * Text normalisation of a rendered page (`cleanText`) and the concatenation of
 * the page's text items that feeds it (src/lib/pdf-utils.ts).
 *
 * `cleanText` is four rewrites applied in order; each is modelled as a
 * recursive function that does what the global regular-expression replacement
 * does, scanning left to right and resuming after each match:
 *   1. `/[^\S\n]+/g -> " "`: every run of white space other than LF becomes one space;
 *   2. ` *\n *` (global) -> "\n": the spaces around each line feed are removed;
 *   3. `/\n{3,}/g -> "\n\n"`: three or more line feeds become two;
 *   4. `trim()`.
 *
 * Besides the shape of the result (`IsClean`), the model states exactly what
 * the first three rewrites produce, independently of them: `Spaced` keeps every
 * character that is not white space and turns each maximal run of white space
 * into one space when it holds no line feed, otherwise into its line feeds, at
 * most two (`RewritesAreSpaced`, `CleanTextIsSpaced`, `CleanTextGap`).
 */
module PdfUtils {
  import opened JsString

  /** The class `[^\S\n]`: white space other than a line feed. */
  predicate IsBlankChar(c: char) {
    IsJsSpace(c) && c != '\n'
  }

  predicate IsSpace(c: char) {
    c == ' '
  }

  predicate IsNewline(c: char) {
    c == '\n'
  }

  // ---------------------------------------------------------------------------
  // The four rewrites

  /** `s.replace(/[^\S\n]+/g, " ")`. */
  function CollapseBlanks(s: string): (r: string)
    ensures s != [] && !IsBlankChar(s[0]) ==> r != [] && r[0] == s[0]
    decreases |s|
  {
    if s == [] then []
    else if IsBlankChar(s[0]) then " " + CollapseBlanks(s[Span(s, IsBlankChar)..])
    else [s[0]] + CollapseBlanks(s[1..])
  }

  /** The regular expression ` *\n *` matches at the start of `s`. */
  predicate NewlineAhead(s: string) {
    var k := Span(s, IsSpace);
    k < |s| && s[k] == '\n'
  }

  /** Where that match ends: after the spaces, the line feed and the spaces
      that follow it. */
  function MatchEnd(s: string): (e: nat)
    requires NewlineAhead(s)
    ensures Span(s, IsSpace) < e <= |s| && (e < |s| ==> s[e] != ' ')
  {
    var k := Span(s, IsSpace) + 1;
    k + Span(s[k..], IsSpace)
  }

  /** `s.replace` of the global pattern ` *\n *` by "\n". A match starts with the
      spaces before a line feed; a run of spaces that no line feed follows is kept. */
  function StripAroundNewlines(s: string): (r: string)
    ensures s != [] ==> r != [] && r[0] == (if NewlineAhead(s) then '\n' else s[0])
    decreases |s|
  {
    if s == [] then []
    else if NewlineAhead(s) then "\n" + StripAroundNewlines(s[MatchEnd(s)..])
    else [s[0]] + StripAroundNewlines(s[1..])
  }

  /** The replacement of a run of `n` line feeds. */
  function NewlineRun(n: nat): (r: string)
    ensures |r| == (if n >= 3 then 2 else n)
    ensures forall i :: 0 <= i < |r| ==> r[i] == '\n'
  {
    if n >= 3 then "\n\n" else seq(n, _ => '\n')
  }

  /** `s.replace(/\n{3,}/g, "\n\n")`. */
  function CollapseNewlines(s: string): (r: string)
    ensures s != [] ==> r != [] && r[0] == s[0]
    decreases |s|
  {
    if s == [] then []
    else if s[0] == '\n' then
      var n := Span(s, IsNewline);
      NewlineRun(n) + CollapseNewlines(s[n..])
    else [s[0]] + CollapseNewlines(s[1..])
  }

  // ---------------------------------------------------------------------------
  // What a cleaned text looks like

  /** Position `i` holds white space other than the plain space and the line feed. */
  predicate OddBlankAt(s: string, i: nat)
    requires i < |s|
  {
    IsBlankChar(s[i]) && s[i] != ' '
  }

  predicate DoubleSpaceAt(s: string, i: nat)
    requires i + 1 < |s|
  {
    s[i] == ' ' && s[i + 1] == ' '
  }

  /** A space directly before or after a line feed at positions `i`, `i + 1`. */
  predicate SpaceAtNewlineAt(s: string, i: nat)
    requires i + 1 < |s|
  {
    (s[i] == ' ' && s[i + 1] == '\n') || (s[i] == '\n' && s[i + 1] == ' ')
  }

  predicate TripleNewlineAt(s: string, i: nat)
    requires i + 2 < |s|
  {
    s[i] == '\n' && s[i + 1] == '\n' && s[i + 2] == '\n'
  }

  /** No white space other than the plain space and the line feed. */
  predicate OnlyPlainSpaces(s: string) {
    forall i: nat :: i < |s| ==> !OddBlankAt(s, i)
  }

  predicate NoDoubleSpace(s: string) {
    forall i: nat :: i + 1 < |s| ==> !DoubleSpaceAt(s, i)
  }

  predicate NoSpaceAtNewline(s: string) {
    forall i: nat :: i + 1 < |s| ==> !SpaceAtNewlineAt(s, i)
  }

  predicate NoTripleNewline(s: string) {
    forall i: nat :: i + 2 < |s| ==> !TripleNewlineAt(s, i)
  }

  /** No white space at either end. */
  predicate Trimmed(s: string) {
    s == [] || (!IsJsSpace(s[0]) && !IsJsSpace(s[|s| - 1]))
  }

  predicate IsClean(s: string) {
    OnlyPlainSpaces(s) && NoDoubleSpace(s) && NoSpaceAtNewline(s) && NoTripleNewline(s) && Trimmed(s)
  }

  /** The characters of `s` that are not white space, in order. */
  function Visible(s: string): string {
    if s == [] then [] else (if IsJsSpace(s[0]) then [] else [s[0]]) + Visible(s[1..])
  }

  /** `cleanText`: the four rewrites in order. The result is clean, and it keeps
      exactly the non-white-space characters of the input, in order: only white
      space is ever changed. */
  function CleanText(text: string): (r: string)
    ensures IsClean(r)
    ensures Visible(r) == Visible(text)
  {
    var s1 := CollapseBlanks(text);
    CollapseBlanksShape(text);
    CollapseBlanksVisible(text);
    var s2 := StripAroundNewlines(s1);
    StripPlain(s1);
    StripShape(s1);
    StripVisible(s1);
    var s3 := CollapseNewlines(s2);
    CollapseNewlinesPlain(s2);
    CollapseNewlinesNoDouble(s2);
    CollapseNewlinesNoSpaceNl(s2);
    CollapseNewlinesNoTriple(s2);
    CollapseNewlinesVisible(s2);
    TrimShape(s3);
    TrimVisible(s3);
    Trim(s3)
  }

  // ---------------------------------------------------------------------------
  // Helper facts about the predicates

  lemma ConsPlain(c: char, r: string)
    ensures OnlyPlainSpaces([c] + r) <==> !(IsBlankChar(c) && c != ' ') && OnlyPlainSpaces(r)
  {
    var s := [c] + r;
    assert OddBlankAt(s, 0) == (IsBlankChar(c) && c != ' ');
    forall i: nat | i < |r| ensures OddBlankAt(s, i + 1) == OddBlankAt(r, i) {
      assert s[i + 1] == r[i];
    }
    if !OnlyPlainSpaces(s) {
      var i: nat :| i < |s| && OddBlankAt(s, i);
      if i > 0 { assert OddBlankAt(r, i - 1); }
    }
  }

  lemma ConsNoDouble(c: char, r: string)
    ensures NoDoubleSpace([c] + r) <==> NoDoubleSpace(r) && !(c == ' ' && r != [] && r[0] == ' ')
  {
    var s := [c] + r;
    if r != [] { assert DoubleSpaceAt(s, 0) == (c == ' ' && r[0] == ' '); }
    forall i: nat | i + 1 < |r| ensures DoubleSpaceAt(s, i + 1) == DoubleSpaceAt(r, i) {
      assert s[i + 1] == r[i] && s[i + 2] == r[i + 1];
    }
    if !NoDoubleSpace(s) {
      var i: nat :| i + 1 < |s| && DoubleSpaceAt(s, i);
      if i > 0 { assert DoubleSpaceAt(r, i - 1); }
    }
  }

  lemma ConsNoSpaceNl(c: char, r: string)
    ensures NoSpaceAtNewline([c] + r) <==>
              NoSpaceAtNewline(r) && !(r != [] && ((c == ' ' && r[0] == '\n') || (c == '\n' && r[0] == ' ')))
  {
    var s := [c] + r;
    if r != [] {
      assert SpaceAtNewlineAt(s, 0) == ((c == ' ' && r[0] == '\n') || (c == '\n' && r[0] == ' '));
    }
    forall i: nat | i + 1 < |r| ensures SpaceAtNewlineAt(s, i + 1) == SpaceAtNewlineAt(r, i) {
      assert s[i + 1] == r[i] && s[i + 2] == r[i + 1];
    }
    if !NoSpaceAtNewline(s) {
      var i: nat :| i + 1 < |s| && SpaceAtNewlineAt(s, i);
      if i > 0 { assert SpaceAtNewlineAt(r, i - 1); }
    }
  }

  lemma ConsNoTriple(c: char, r: string)
    ensures NoTripleNewline([c] + r) <==>
              NoTripleNewline(r) && !(c == '\n' && |r| >= 2 && r[0] == '\n' && r[1] == '\n')
  {
    var s := [c] + r;
    if |r| >= 2 { assert TripleNewlineAt(s, 0) == (c == '\n' && r[0] == '\n' && r[1] == '\n'); }
    forall i: nat | i + 2 < |r| ensures TripleNewlineAt(s, i + 1) == TripleNewlineAt(r, i) {
      assert s[i + 1] == r[i] && s[i + 2] == r[i + 1] && s[i + 3] == r[i + 2];
    }
    if !NoTripleNewline(s) {
      var i: nat :| i + 2 < |s| && TripleNewlineAt(s, i);
      if i > 0 { assert TripleNewlineAt(r, i - 1); }
    }
  }

  lemma ConsVisible(c: char, r: string)
    ensures Visible([c] + r) == (if IsJsSpace(c) then [] else [c]) + Visible(r)
  {
    assert ([c] + r)[1..] == r;
  }

  lemma SliceProps(s: string, a: nat, b: nat)
    requires a <= b <= |s|
    ensures OnlyPlainSpaces(s) ==> OnlyPlainSpaces(s[a..b])
    ensures NoDoubleSpace(s) ==> NoDoubleSpace(s[a..b])
    ensures NoSpaceAtNewline(s) ==> NoSpaceAtNewline(s[a..b])
    ensures NoTripleNewline(s) ==> NoTripleNewline(s[a..b])
  {
    var t := s[a..b];
    forall i: nat | i < |t| ensures OddBlankAt(t, i) == OddBlankAt(s, a + i) {
      assert t[i] == s[a + i];
    }
    forall i: nat | i + 1 < |t|
      ensures DoubleSpaceAt(t, i) == DoubleSpaceAt(s, a + i)
      ensures SpaceAtNewlineAt(t, i) == SpaceAtNewlineAt(s, a + i)
    {
      assert t[i] == s[a + i] && t[i + 1] == s[a + i + 1];
    }
    forall i: nat | i + 2 < |t| ensures TripleNewlineAt(t, i) == TripleNewlineAt(s, a + i) {
      assert t[i] == s[a + i] && t[i + 1] == s[a + i + 1] && t[i + 2] == s[a + i + 2];
    }
  }

  lemma SuffixProps(s: string, a: nat)
    requires a <= |s|
    ensures OnlyPlainSpaces(s) ==> OnlyPlainSpaces(s[a..])
    ensures NoDoubleSpace(s) ==> NoDoubleSpace(s[a..])
    ensures NoSpaceAtNewline(s) ==> NoSpaceAtNewline(s[a..])
    ensures NoTripleNewline(s) ==> NoTripleNewline(s[a..])
  {
    assert s[a..] == s[a..|s|];
    SliceProps(s, a, |s|);
  }

  lemma {:induction false} VisibleAppend(a: string, b: string)
    ensures Visible(a + b) == Visible(a) + Visible(b)
  {
    if a != [] {
      assert (a + b)[1..] == a[1..] + b;
      VisibleAppend(a[1..], b);
    } else {
      assert a + b == b;
    }
  }

  lemma {:induction false} VisibleAllSpace(s: string)
    requires forall i :: 0 <= i < |s| ==> IsJsSpace(s[i])
    ensures Visible(s) == []
  {
    if s != [] {
      VisibleAllSpace(s[1..]);
    }
  }

  /** Dropping a leading run of white space keeps the visible characters. */
  lemma VisibleSkip(s: string, k: nat)
    requires k <= |s|
    requires forall i :: 0 <= i < k ==> IsJsSpace(s[i])
    ensures Visible(s[k..]) == Visible(s)
  {
    assert s == s[..k] + s[k..];
    VisibleAppend(s[..k], s[k..]);
    VisibleAllSpace(s[..k]);
  }

  lemma {:induction false} VisibleEmptyIff(s: string)
    ensures Visible(s) == [] <==> forall i :: 0 <= i < |s| ==> IsJsSpace(s[i])
  {
    if s != [] {
      VisibleEmptyIff(s[1..]);
      assert forall i :: 1 <= i < |s| ==> s[i] == s[1..][i - 1];
    }
  }

  // ---------------------------------------------------------------------------
  // Step 1

  lemma {:induction false} CollapseBlanksShape(s: string)
    ensures OnlyPlainSpaces(CollapseBlanks(s)) && NoDoubleSpace(CollapseBlanks(s))
    decreases |s|
  {
    if s == [] {
    } else if IsBlankChar(s[0]) {
      var t := s[Span(s, IsBlankChar)..];
      CollapseBlanksShape(t);
      ConsPlain(' ', CollapseBlanks(t));
      ConsNoDouble(' ', CollapseBlanks(t));
    } else {
      CollapseBlanksShape(s[1..]);
      ConsPlain(s[0], CollapseBlanks(s[1..]));
      ConsNoDouble(s[0], CollapseBlanks(s[1..]));
    }
  }

  lemma {:induction false} CollapseBlanksVisible(s: string)
    ensures Visible(CollapseBlanks(s)) == Visible(s)
    decreases |s|
  {
    if s == [] {
    } else if IsBlankChar(s[0]) {
      var n := Span(s, IsBlankChar);
      SpanSkipped(s, IsBlankChar);
      CollapseBlanksVisible(s[n..]);
      ConsVisible(' ', CollapseBlanks(s[n..]));
      VisibleSkip(s, n);
    } else {
      CollapseBlanksVisible(s[1..]);
      ConsVisible(s[0], CollapseBlanks(s[1..]));
    }
  }

  lemma {:induction false} CollapseBlanksIdentity(s: string)
    requires OnlyPlainSpaces(s) && NoDoubleSpace(s)
    ensures CollapseBlanks(s) == s
    decreases |s|
  {
    if s != [] {
      SuffixProps(s, 1);
      assert s == [s[0]] + s[1..];
      if IsBlankChar(s[0]) {
        assert !OddBlankAt(s, 0);
        if |s| > 1 {
          assert !DoubleSpaceAt(s, 0) && !OddBlankAt(s, 1);
          assert !IsBlankChar(s[1..][0]);
        }
        assert Span(s, IsBlankChar) == 1 + Span(s[1..], IsBlankChar);
      }
      CollapseBlanksIdentity(s[1..]);
    }
  }

  // ---------------------------------------------------------------------------
  // Step 2

  /** A leading space is skipped both by the match and by the search for one. */
  lemma AheadPastSpace(s: string)
    requires s != [] && s[0] == ' '
    ensures NewlineAhead(s) == NewlineAhead(s[1..])
  {
    assert Span(s, IsSpace) == 1 + Span(s[1..], IsSpace);
  }

  lemma {:induction false} StripPlain(s: string)
    requires OnlyPlainSpaces(s)
    ensures OnlyPlainSpaces(StripAroundNewlines(s))
    decreases |s|
  {
    if s == [] {
    } else if NewlineAhead(s) {
      var e := MatchEnd(s);
      SuffixProps(s, e);
      StripPlain(s[e..]);
      ConsPlain('\n', StripAroundNewlines(s[e..]));
    } else {
      SuffixProps(s, 1);
      StripPlain(s[1..]);
      assert s == [s[0]] + s[1..];
      ConsPlain(s[0], s[1..]);
      ConsPlain(s[0], StripAroundNewlines(s[1..]));
    }
  }

  lemma {:induction false} StripShape(s: string)
    requires NoDoubleSpace(s)
    ensures NoDoubleSpace(StripAroundNewlines(s)) && NoSpaceAtNewline(StripAroundNewlines(s))
    decreases |s|
  {
    if s == [] {
    } else if NewlineAhead(s) {
      var e := MatchEnd(s);
      SuffixProps(s, e);
      StripShape(s[e..]);
      var rv := StripAroundNewlines(s[e..]);
      ConsNoDouble('\n', rv);
      ConsNoSpaceNl('\n', rv);
    } else {
      var rest := StripAroundNewlines(s[1..]);
      SuffixProps(s, 1);
      StripShape(s[1..]);
      ConsNoDouble(s[0], rest);
      ConsNoSpaceNl(s[0], rest);
      if s[0] == ' ' && |s| > 1 {
        assert !DoubleSpaceAt(s, 0);
        AheadPastSpace(s);
      }
    }
  }

  /** Everything a match of ` *\n *` covers is white space. */
  lemma MatchIsSpace(s: string)
    requires NewlineAhead(s)
    ensures forall i :: 0 <= i < MatchEnd(s) ==> IsJsSpace(s[i])
  {
    var k := Span(s, IsSpace);
    SpanSkipped(s, IsSpace);
    SpanSkipped(s[k + 1..], IsSpace);
    forall i | 0 <= i < MatchEnd(s) ensures IsJsSpace(s[i]) {
      if i > k {
        assert s[i] == s[k + 1..][i - k - 1];
      }
    }
  }

  lemma {:induction false} StripVisible(s: string)
    ensures Visible(StripAroundNewlines(s)) == Visible(s)
    decreases |s|
  {
    if s == [] {
    } else if NewlineAhead(s) {
      var e := MatchEnd(s);
      StripVisible(s[e..]);
      ConsVisible('\n', StripAroundNewlines(s[e..]));
      MatchIsSpace(s);
      VisibleSkip(s, e);
    } else {
      StripVisible(s[1..]);
      ConsVisible(s[0], StripAroundNewlines(s[1..]));
    }
  }

  /** Without a space next to a line feed, a run of spaces is never followed by one. */
  lemma NoMatchAfterSpace(s: string)
    requires NoSpaceAtNewline(s) && s != [] && s[0] == ' '
    ensures !NewlineAhead(s)
  {
    var k := Span(s, IsSpace);
    SpanSkipped(s, IsSpace);
    if k < |s| {
      assert s[k - 1] == ' ' && !SpaceAtNewlineAt(s, k - 1);
    }
  }

  lemma {:induction false} StripIdentity(s: string)
    requires NoSpaceAtNewline(s)
    ensures StripAroundNewlines(s) == s
    decreases |s|
  {
    if s != [] {
      SuffixProps(s, 1);
      assert s == [s[0]] + s[1..];
      if s[0] == '\n' {
        if |s| > 1 { assert !SpaceAtNewlineAt(s, 0); }
        assert MatchEnd(s) == 1;
      } else if s[0] == ' ' {
        NoMatchAfterSpace(s);
      }
      StripIdentity(s[1..]);
    }
  }

  // ---------------------------------------------------------------------------
  // Step 3

  /** A leading run of `n` line feeds. */
  lemma NewlineRunSplit(s: string)
    requires s != [] && s[0] == '\n'
    ensures var n := Span(s, IsNewline);
            && 1 <= n && s[n - 1] == '\n' && (n < |s| ==> s[n] != '\n')
            && (forall i :: 0 <= i < n ==> s[i] == '\n')
  {
    SpanSkipped(s, IsNewline);
  }

  /** The replacement of a run, followed by `rt`, as single characters in front of `rt`. */
  lemma NewlineRunCons(n: nat, rt: string)
    requires n >= 1
    ensures n == 1 ==> NewlineRun(n) + rt == ['\n'] + rt
    ensures n >= 2 ==> NewlineRun(n) + rt == ['\n'] + (['\n'] + rt)
  {
    if n == 1 {
      assert NewlineRun(n) == ['\n'];
    } else {
      assert NewlineRun(n) == ['\n', '\n'];
    }
  }

  lemma {:induction false} CollapseNewlinesPlain(s: string)
    requires OnlyPlainSpaces(s)
    ensures OnlyPlainSpaces(CollapseNewlines(s))
    decreases |s|
  {
    if s == [] {
    } else if s[0] == '\n' {
      var n := Span(s, IsNewline);
      SuffixProps(s, n);
      CollapseNewlinesPlain(s[n..]);
      var rt := CollapseNewlines(s[n..]);
      NewlineRunCons(n, rt);
      ConsPlain('\n', rt);
      ConsPlain('\n', ['\n'] + rt);
    } else {
      SuffixProps(s, 1);
      CollapseNewlinesPlain(s[1..]);
      assert s == [s[0]] + s[1..];
      ConsPlain(s[0], s[1..]);
      ConsPlain(s[0], CollapseNewlines(s[1..]));
    }
  }

  lemma {:induction false} CollapseNewlinesNoDouble(s: string)
    requires NoDoubleSpace(s)
    ensures NoDoubleSpace(CollapseNewlines(s))
    decreases |s|
  {
    if s == [] {
    } else if s[0] == '\n' {
      var n := Span(s, IsNewline);
      SuffixProps(s, n);
      CollapseNewlinesNoDouble(s[n..]);
      var rt := CollapseNewlines(s[n..]);
      NewlineRunCons(n, rt);
      ConsNoDouble('\n', rt);
      ConsNoDouble('\n', ['\n'] + rt);
    } else {
      var rest := CollapseNewlines(s[1..]);
      SuffixProps(s, 1);
      CollapseNewlinesNoDouble(s[1..]);
      ConsNoDouble(s[0], rest);
      if |s| > 1 { assert !DoubleSpaceAt(s, 0); }
    }
  }

  lemma {:induction false} CollapseNewlinesNoSpaceNl(s: string)
    requires NoSpaceAtNewline(s)
    ensures NoSpaceAtNewline(CollapseNewlines(s))
    decreases |s|
  {
    if s == [] {
    } else if s[0] == '\n' {
      var n := Span(s, IsNewline);
      NewlineRunSplit(s);
      SuffixProps(s, n);
      CollapseNewlinesNoSpaceNl(s[n..]);
      var rt := CollapseNewlines(s[n..]);
      if n < |s| {
        assert !SpaceAtNewlineAt(s, n - 1);
      }
      NewlineRunCons(n, rt);
      ConsNoSpaceNl('\n', rt);
      ConsNoSpaceNl('\n', ['\n'] + rt);
    } else {
      var rest := CollapseNewlines(s[1..]);
      SuffixProps(s, 1);
      CollapseNewlinesNoSpaceNl(s[1..]);
      ConsNoSpaceNl(s[0], rest);
      if |s| > 1 { assert !SpaceAtNewlineAt(s, 0); }
    }
  }

  /** Whatever the input, the output has no three line feeds in a row. */
  lemma {:induction false} CollapseNewlinesNoTriple(s: string)
    ensures NoTripleNewline(CollapseNewlines(s))
    decreases |s|
  {
    if s == [] {
    } else if s[0] == '\n' {
      var n := Span(s, IsNewline);
      CollapseNewlinesNoTriple(s[n..]);
      var rt := CollapseNewlines(s[n..]);
      NewlineRunCons(n, rt);
      ConsNoTriple('\n', rt);
      ConsNoTriple('\n', ['\n'] + rt);
    } else {
      CollapseNewlinesNoTriple(s[1..]);
      ConsNoTriple(s[0], CollapseNewlines(s[1..]));
    }
  }

  lemma {:induction false} CollapseNewlinesVisible(s: string)
    ensures Visible(CollapseNewlines(s)) == Visible(s)
    decreases |s|
  {
    if s == [] {
    } else if s[0] == '\n' {
      var n := Span(s, IsNewline);
      NewlineRunSplit(s);
      CollapseNewlinesVisible(s[n..]);
      VisibleAppend(NewlineRun(n), CollapseNewlines(s[n..]));
      VisibleAllSpace(NewlineRun(n));
      VisibleSkip(s, n);
    } else {
      CollapseNewlinesVisible(s[1..]);
      ConsVisible(s[0], CollapseNewlines(s[1..]));
    }
  }

  lemma {:induction false} CollapseNewlinesIdentity(s: string)
    requires NoTripleNewline(s)
    ensures CollapseNewlines(s) == s
    decreases |s|
  {
    if s != [] {
      if s[0] == '\n' {
        var n := Span(s, IsNewline);
        NewlineRunSplit(s);
        if |s| >= 3 { assert !TripleNewlineAt(s, 0); }
        assert n < 3;
        assert NewlineRun(n) == s[..n];
        SuffixProps(s, n);
        CollapseNewlinesIdentity(s[n..]);
        assert s == s[..n] + s[n..];
      } else {
        SuffixProps(s, 1);
        CollapseNewlinesIdentity(s[1..]);
        assert s == [s[0]] + s[1..];
      }
    }
  }

  // ---------------------------------------------------------------------------
  // Step 4

  lemma TrimShape(s: string)
    ensures OnlyPlainSpaces(s) ==> OnlyPlainSpaces(Trim(s))
    ensures NoDoubleSpace(s) ==> NoDoubleSpace(Trim(s))
    ensures NoSpaceAtNewline(s) ==> NoSpaceAtNewline(Trim(s))
    ensures NoTripleNewline(s) ==> NoTripleNewline(Trim(s))
  {
    TrimIsSlice(s);
    SliceProps(s, TrimStart(s), TrimStart(s) + |Trim(s)|);
  }

  lemma TrimVisible(s: string)
    ensures Visible(Trim(s)) == Visible(s)
  {
    TrimIsSlice(s);
    TrimRemovesSpace(s);
    var r := Trim(s);
    var k := TrimStart(s);
    var tail := s[k + |r|..];
    assert s == s[..k] + (r + tail);
    VisibleAppend(s[..k], r + tail);
    VisibleAppend(r, tail);
    VisibleAllSpace(s[..k]);
    VisibleAllSpace(tail);
  }

  lemma TrimIdentity(s: string)
    requires Trimmed(s)
    ensures Trim(s) == s
  {
    assert Span(s, IsJsSpace) == 0;
    assert SpanEnd(s, IsJsSpace) == 0;
  }

  // ---------------------------------------------------------------------------
  // Properties of cleanText

  /** A clean text is left unchanged by every rewrite. */
  lemma CleanTextFixesClean(s: string)
    requires IsClean(s)
    ensures CleanText(s) == s
  {
    CollapseBlanksIdentity(s);
    StripIdentity(s);
    CollapseNewlinesIdentity(s);
    TrimIdentity(s);
  }

  /** Cleaning twice is cleaning once. */
  lemma CleanTextIdempotent(s: string)
    ensures CleanText(CleanText(s)) == CleanText(s)
  {
    CleanTextFixesClean(CleanText(s));
  }

  /** The cleaned text is empty exactly when the input is all white space. */
  lemma CleanTextEmptyIff(s: string)
    ensures CleanText(s) == [] <==> forall i :: 0 <= i < |s| ==> IsJsSpace(s[i])
  {
    var r := CleanText(s);
    VisibleEmptyIff(s);
    VisibleEmptyIff(r);
    assert r != [] ==> !IsJsSpace(r[0]);
  }

  // ---------------------------------------------------------------------------
  // What each run of white space becomes

  /** `n` line feeds. */
  function Feeds(n: nat): (r: string)
    ensures |r| == n && forall i :: 0 <= i < n ==> r[i] == '\n'
  {
    seq(n, _ => '\n')
  }

  /** Neither a space nor a line feed: no match of ` *\n *` holds this character. */
  predicate NotInMatch(c: char) {
    c != ' ' && c != '\n'
  }

  /** The separator a maximal run `g` of white space becomes in the cleaned
      text: one space when it holds no line feed, otherwise its line feeds,
      at most two. */
  function GapSeparator(g: string): string {
    var n := multiset(g)['\n'];
    if n == 0 then " " else NewlineRun(n)
  }

  /** The layout `cleanText` produces before trimming, stated independently of
      the four rewrites: every maximal run of white space becomes its separator,
      and every other character is kept. */
  function Spaced(s: string): string
    decreases |s|
  {
    if s == [] then []
    else if !IsJsSpace(s[0]) then [s[0]] + Spaced(s[1..])
    else
      var k := Span(s, IsJsSpace);
      GapSeparator(s[..k]) + Spaced(s[k..])
  }

  lemma {:induction false} CollapseBlanksAppend(x: string, z: string)
    requires x == [] || z == [] || !IsBlankChar(x[|x| - 1]) || !IsBlankChar(z[0])
    ensures CollapseBlanks(x + z) == CollapseBlanks(x) + CollapseBlanks(z)
    decreases |x|
  {
    if x == [] {
      assert x + z == z;
    } else if !IsBlankChar(x[0]) {
      var y := x[1..];
      assert y == [] || y[|y| - 1] == x[|x| - 1];
      CollapseBlanksAppend(y, z);
      CollapseBlanksPlainStep(x, z);
    } else if Span(x, IsBlankChar) < |x| {
      var y := x[Span(x, IsBlankChar)..];
      assert y[|y| - 1] == x[|x| - 1];
      CollapseBlanksAppend(y, z);
      CollapseBlanksRunInside(x, z);
    } else {
      SpanSkipped(x, IsBlankChar);
      CollapseBlanksRunToEnd(x, z);
    }
  }

  lemma {:induction false} CollapseBlanksPlainStep(x: string, z: string)
    requires x != [] && !IsBlankChar(x[0])
    requires CollapseBlanks(x[1..] + z) == CollapseBlanks(x[1..]) + CollapseBlanks(z)
    ensures CollapseBlanks(x + z) == CollapseBlanks(x) + CollapseBlanks(z)
  {
    AppendTail(x, z);
    ConcatAssoc([x[0]], CollapseBlanks(x[1..]), CollapseBlanks(z));
  }

  lemma {:induction false} CollapseBlanksRunInside(x: string, z: string)
    requires x != [] && IsBlankChar(x[0]) && Span(x, IsBlankChar) < |x|
    requires CollapseBlanks(x[Span(x, IsBlankChar)..] + z) == CollapseBlanks(x[Span(x, IsBlankChar)..]) + CollapseBlanks(z)
    ensures CollapseBlanks(x + z) == CollapseBlanks(x) + CollapseBlanks(z)
  {
    var m := Span(x, IsBlankChar);
    SpanAppend(x, z, IsBlankChar);
    AppendSplit(x, z, m);
    ConcatAssoc(" ", CollapseBlanks(x[m..]), CollapseBlanks(z));
  }

  lemma {:induction false} CollapseBlanksRunToEnd(x: string, z: string)
    requires x != [] && IsBlankChar(x[0]) && Span(x, IsBlankChar) == |x|
    requires z == [] || !IsBlankChar(z[0])
    ensures CollapseBlanks(x + z) == CollapseBlanks(x) + CollapseBlanks(z)
  {
    SpanAppend(x, z, IsBlankChar);
    AppendSplit(x, z, |x|);
  }

  lemma {:induction false} StripAppend(x: string, z: string)
    requires x == [] || z == [] || NotInMatch(x[|x| - 1]) || NotInMatch(z[0])
    ensures StripAroundNewlines(x + z) == StripAroundNewlines(x) + StripAroundNewlines(z)
    decreases |x|
  {
    if x == [] {
      assert x + z == z;
    } else if NewlineAhead(x) && MatchEnd(x) < |x| {
      var y := x[MatchEnd(x)..];
      assert y[|y| - 1] == x[|x| - 1];
      StripAppend(y, z);
      StripMatchInside(x, z);
    } else if NewlineAhead(x) {
      MatchEndsLoose(x);
      StripMatchToEnd(x, z);
    } else {
      StripNoMatch(x, z);
      StripAppend(x[1..], z);
      StripNoMatchStep(x, z);
    }
  }

  lemma {:induction false} StripNoMatchStep(x: string, z: string)
    requires x != [] && !NewlineAhead(x)
    requires NotInMatch(x[|x| - 1]) || z == [] || NotInMatch(z[0])
    requires StripAroundNewlines(x[1..] + z)
             == StripAroundNewlines(x[1..]) + StripAroundNewlines(z)
    ensures StripAroundNewlines(x + z) == StripAroundNewlines(x) + StripAroundNewlines(z)
  {
    StripNoMatch(x, z);
    StripUnfoldPlain(x);
    ConcatAssoc([x[0]], StripAroundNewlines(x[1..]), StripAroundNewlines(z));
  }

  lemma {:induction false} StripUnfoldPlain(s: string)
    requires s != [] && !NewlineAhead(s)
    ensures StripAroundNewlines(s) == [s[0]] + StripAroundNewlines(s[1..])
  {
  }

  /** A match that reaches the end of `x` ends with a space or a line feed. */
  lemma {:induction false} MatchEndsLoose(x: string)
    requires NewlineAhead(x) && MatchEnd(x) == |x|
    ensures !NotInMatch(x[|x| - 1])
  {
    var k := Span(x, IsSpace);
    SpanSkipped(x[k + 1..], IsSpace);
    if |x| > k + 1 {
      assert x[|x| - 1] == x[k + 1..][|x| - k - 2];
    }
  }

  /** A match found in `x` is found in `x + z` too, and ends at the same place
      unless it reaches the end of `x` and `z` starts with a space. */
  lemma {:induction false} MatchAppend(x: string, z: string)
    requires NewlineAhead(x)
    ensures NewlineAhead(x + z)
    ensures MatchEnd(x) < |x| || z == [] || NotInMatch(z[0]) ==> MatchEnd(x + z) == MatchEnd(x)
  {
    var k := Span(x, IsSpace);
    SpanAppend(x, z, IsSpace);
    assert (x + z)[k] == '\n';
    AppendSplit(x, z, k + 1);
    SpanAppend(x[k + 1..], z, IsSpace);
  }

  lemma {:induction false} StripMatchInside(x: string, z: string)
    requires NewlineAhead(x) && MatchEnd(x) < |x|
    requires StripAroundNewlines(x[MatchEnd(x)..] + z)
             == StripAroundNewlines(x[MatchEnd(x)..]) + StripAroundNewlines(z)
    ensures StripAroundNewlines(x + z) == StripAroundNewlines(x) + StripAroundNewlines(z)
  {
    var y := x[MatchEnd(x)..];
    StripMatchNextTo(x, z);
    StripUnfoldMatch(x);
    ConcatAssoc("\n", StripAroundNewlines(y), StripAroundNewlines(z));
  }

  /** A match inside `x` is replaced the same way when `z` follows. */
  lemma {:induction false} StripMatchNextTo(x: string, z: string)
    requires NewlineAhead(x) && MatchEnd(x) < |x|
    ensures StripAroundNewlines(x + z) == "\n" + StripAroundNewlines(x[MatchEnd(x)..] + z)
  {
    var e := MatchEnd(x);
    MatchAppend(x, z);
    StripUnfoldMatch(x + z);
    AppendSplit(x, z, e);
  }

  lemma {:induction false} StripUnfoldMatch(s: string)
    requires NewlineAhead(s)
    ensures StripAroundNewlines(s) == "\n" + StripAroundNewlines(s[MatchEnd(s)..])
  {
  }

  lemma {:induction false} StripMatchToEnd(x: string, z: string)
    requires NewlineAhead(x) && MatchEnd(x) == |x|
    requires z == [] || NotInMatch(z[0])
    ensures StripAroundNewlines(x + z) == StripAroundNewlines(x) + StripAroundNewlines(z)
  {
    MatchAppend(x, z);
    AppendSplit(x, z, |x|);
    StripUnfoldMatch(x + z);
    StripUnfoldMatch(x);
    assert StripAroundNewlines(x) == "\n";
  }

  lemma {:induction false} StripNoMatch(x: string, z: string)
    requires x != [] && !NewlineAhead(x)
    requires NotInMatch(x[|x| - 1]) || z == [] || NotInMatch(z[0])
    ensures StripAroundNewlines(x + z) == [x[0]] + StripAroundNewlines(x[1..] + z)
    ensures x[1..] == [] || z == [] || NotInMatch(x[1..][|x| - 2]) || NotInMatch(z[0])
  {
    var k := Span(x, IsSpace);
    SpanAppend(x, z, IsSpace);
    SpanSkipped(x, IsSpace);
    if k == |x| {
      assert x[|x| - 1] == ' ';
    }
    assert !NewlineAhead(x + z);
    AppendTail(x, z);
  }

  lemma {:induction false} CollapseNewlinesAppend(x: string, z: string)
    requires x == [] || z == [] || x[|x| - 1] != '\n' || z[0] != '\n'
    ensures CollapseNewlines(x + z) == CollapseNewlines(x) + CollapseNewlines(z)
    decreases |x|
  {
    if x == [] {
      assert x + z == z;
    } else if !IsNewline(x[0]) {
      var y := x[1..];
      assert y == [] || y[|y| - 1] == x[|x| - 1];
      CollapseNewlinesAppend(y, z);
      CollapseNewlinesPlainStep(x, z);
    } else if Span(x, IsNewline) < |x| {
      var y := x[Span(x, IsNewline)..];
      assert y[|y| - 1] == x[|x| - 1];
      CollapseNewlinesAppend(y, z);
      CollapseNewlinesRunInside(x, z);
    } else {
      SpanSkipped(x, IsNewline);
      CollapseNewlinesRunToEnd(x, z);
    }
  }

  lemma {:induction false} CollapseNewlinesPlainStep(x: string, z: string)
    requires x != [] && !IsNewline(x[0])
    requires CollapseNewlines(x[1..] + z) == CollapseNewlines(x[1..]) + CollapseNewlines(z)
    ensures CollapseNewlines(x + z) == CollapseNewlines(x) + CollapseNewlines(z)
  {
    AppendTail(x, z);
    ConcatAssoc([x[0]], CollapseNewlines(x[1..]), CollapseNewlines(z));
  }

  lemma {:induction false} CollapseNewlinesRunInside(x: string, z: string)
    requires x != [] && IsNewline(x[0]) && Span(x, IsNewline) < |x|
    requires CollapseNewlines(x[Span(x, IsNewline)..] + z) == CollapseNewlines(x[Span(x, IsNewline)..]) + CollapseNewlines(z)
    ensures CollapseNewlines(x + z) == CollapseNewlines(x) + CollapseNewlines(z)
  {
    var m := Span(x, IsNewline);
    SpanAppend(x, z, IsNewline);
    AppendSplit(x, z, m);
    ConcatAssoc(NewlineRun(m), CollapseNewlines(x[m..]), CollapseNewlines(z));
  }

  lemma {:induction false} CollapseNewlinesRunToEnd(x: string, z: string)
    requires x != [] && IsNewline(x[0]) && Span(x, IsNewline) == |x|
    requires z == [] || !IsNewline(z[0])
    ensures CollapseNewlines(x + z) == CollapseNewlines(x) + CollapseNewlines(z)
  {
    SpanAppend(x, z, IsNewline);
    AppendSplit(x, z, |x|);
  }

  /** `t` holds only spaces and line feeds. */
  predicate SpacesAndFeeds(t: string) {
    forall i :: 0 <= i < |t| ==> t[i] == ' ' || t[i] == '\n'
  }

  /** A string without line feeds counts none. */
  lemma {:induction false} NoFeedCount(t: string)
    requires forall i :: 0 <= i < |t| ==> t[i] != '\n'
    ensures multiset(t)['\n'] == 0
  {
    assert '\n' !in t;
  }

  /** A slice without line feeds counts none. */
  lemma {:induction false} NoFeedSlice(t: string, a: nat, b: nat)
    requires a <= b <= |t|
    requires forall i :: a <= i < b ==> t[i] != '\n'
    ensures multiset(t[a..b])['\n'] == 0
  {
    assert forall j :: 0 <= j < b - a ==> t[a..b][j] == t[a + j];
    NoFeedCount(t[a..b]);
  }

  /** In a string of spaces and line feeds, a match holds one line feed, and
      what follows it is empty or starts with the next line feed. */
  lemma {:induction false} MatchInWhite(t: string)
    requires SpacesAndFeeds(t) && NewlineAhead(t)
    ensures var rest := t[MatchEnd(t)..];
            && multiset(t)['\n'] == 1 + multiset(rest)['\n']
            && SpacesAndFeeds(rest)
            && (rest == [] || rest[0] == '\n')
  {
    var k := Span(t, IsSpace);
    var e := MatchEnd(t);
    MatchIsSpaced(t);
    NoFeedSlice(t, 0, k);
    NoFeedSlice(t, k + 1, e);
    assert t[..e] == t[0..k] + [t[k]] + t[k + 1..e];
    assert t == t[..e] + t[e..];
  }

  /** The spaces on both sides of a match's line feed. */
  lemma {:induction false} MatchIsSpaced(t: string)
    requires NewlineAhead(t)
    ensures var k := Span(t, IsSpace);
            && (forall i :: 0 <= i < k ==> t[i] == ' ')
            && (forall i :: k + 1 <= i < MatchEnd(t) ==> t[i] == ' ')
  {
    var k := Span(t, IsSpace);
    SpanSkipped(t, IsSpace);
    SpanSkipped(t[k + 1..], IsSpace);
    assert forall i :: k + 1 <= i < MatchEnd(t) ==> t[i] == t[k + 1..][i - k - 1];
  }

  /** Without a match ahead, a string of spaces and line feeds is all spaces. */
  lemma {:induction false} NoMatchInWhite(t: string)
    requires SpacesAndFeeds(t) && !NewlineAhead(t)
    ensures forall i :: 0 <= i < |t| ==> t[i] == ' '
  {
    SpanSkipped(t, IsSpace);
  }

  lemma {:induction false} FeedsCons(n: nat)
    ensures ['\n'] + Feeds(n) == Feeds(n + 1)
  {
  }

  /** A string of spaces and line feeds holding at least one line feed loses
      all its spaces; one holding none is left alone. */
  lemma {:induction false} StripWhite(t: string)
    requires SpacesAndFeeds(t)
    ensures var n := multiset(t)['\n'];
            StripAroundNewlines(t) == if n == 0 then t else Feeds(n)
    decreases |t|
  {
    if t == [] {
    } else if NewlineAhead(t) {
      var rest := t[MatchEnd(t)..];
      MatchInWhite(t);
      StripWhite(rest);
      if rest != [] {
        assert rest[0] in multiset(rest);
        FeedsCons(multiset(rest)['\n']);
      } else {
        assert Feeds(1) == "\n";
      }
    } else {
      NoMatchInWhite(t);
      NoFeedCount(t);
      NoFeedCount(t[1..]);
      StripWhite(t[1..]);
      assert t == [t[0]] + t[1..];
    }
  }

  /** Collapsing the blank runs of a white-space string leaves spaces and line
      feeds, as many line feeds as before. */
  lemma {:induction false} CollapseBlanksWhite(g: string)
    requires forall i :: 0 <= i < |g| ==> IsJsSpace(g[i])
    ensures SpacesAndFeeds(CollapseBlanks(g))
    ensures multiset(CollapseBlanks(g))['\n'] == multiset(g)['\n']
    decreases |g|
  {
    if g == [] {
    } else if g[0] == '\n' {
      var r := CollapseBlanks(g[1..]);
      CollapseBlanksWhite(g[1..]);
      assert g == [g[0]] + g[1..];
      assert CollapseBlanks(g) == ['\n'] + r;
      ConsWhite('\n', r);
    } else {
      var rest := g[Span(g, IsBlankChar)..];
      var r := CollapseBlanks(rest);
      BlankRunWhite(g);
      CollapseBlanksWhite(rest);
      assert CollapseBlanks(g) == " " + r;
      ConsWhite(' ', r);
    }
  }

  /** A run of white space without line feeds becomes one space. */
  lemma {:induction false} CollapseBlanksNoFeed(g: string)
    requires g != [] && forall i :: 0 <= i < |g| ==> IsJsSpace(g[i])
    requires multiset(g)['\n'] == 0
    ensures CollapseBlanks(g) == " "
  {
    assert forall i :: 0 <= i < |g| ==> g[i] in multiset(g);
    SpanExact(g, IsBlankChar, |g|);
    assert g[|g|..] == [];
  }

  lemma {:induction false} ConsWhite(c: char, r: string)
    requires c == ' ' || c == '\n'
    requires SpacesAndFeeds(r)
    ensures SpacesAndFeeds([c] + r)
  {
    assert forall i :: 1 <= i <= |r| ==> ([c] + r)[i] == r[i - 1];
  }

  /** The leading blank run of a white-space string holds no line feed, and
      it stops at a line feed or at the end. */
  lemma {:induction false} BlankRunWhite(g: string)
    requires g != [] && IsBlankChar(g[0])
    requires forall i :: 0 <= i < |g| ==> IsJsSpace(g[i])
    ensures var k := Span(g, IsBlankChar);
            && multiset(g)['\n'] == multiset(g[k..])['\n']
            && (forall i :: 0 <= i < |g| - k ==> IsJsSpace(g[k..][i]))
            && (g[k..] == [] || g[k..][0] == '\n')
  {
    var k := Span(g, IsBlankChar);
    SpanSkipped(g, IsBlankChar);
    assert g == g[..k] + g[k..];
    NoFeedCount(g[..k]);
  }

  lemma {:induction false} CollapseNewlinesFeeds(n: nat)
    requires n >= 1
    ensures CollapseNewlines(Feeds(n)) == NewlineRun(n)
  {
    SpanExact(Feeds(n), IsNewline, n);
    assert Feeds(n)[n..] == [];
  }

  /** The first three rewrites turn a maximal run of white space into its separator. */
  lemma {:induction false} GapBecomesSeparator(g: string)
    requires g != [] && forall i :: 0 <= i < |g| ==> IsJsSpace(g[i])
    ensures CollapseNewlines(StripAroundNewlines(CollapseBlanks(g))) == GapSeparator(g)
  {
    CollapseBlanksWhite(g);
    StripWhite(CollapseBlanks(g));
    if multiset(g)['\n'] == 0 {
      CollapseBlanksNoFeed(g);
    } else {
      CollapseNewlinesFeeds(multiset(g)['\n']);
    }
  }

  /** A character that is not white space passes the first three rewrites unchanged. */
  lemma {:induction false} PlainHead(s: string)
    requires s != [] && !IsJsSpace(s[0])
    ensures CollapseNewlines(StripAroundNewlines(CollapseBlanks(s)))
            == [s[0]] + CollapseNewlines(StripAroundNewlines(CollapseBlanks(s[1..])))
  {
    var c, u := s[0], s[1..];
    assert s == [c] + u;
    assert [c][1..] == [];
    CollapseBlanksAppend([c], u);
    assert CollapseBlanks([c]) == [c];
    var u1 := CollapseBlanks(u);
    StripAppend([c], u1);
    assert Span([c], IsSpace) == 0;
    assert StripAroundNewlines([c]) == [c];
    var u2 := StripAroundNewlines(u1);
    CollapseNewlinesAppend([c], u2);
    assert CollapseNewlines([c]) == [c];
  }

  /** A leading maximal run of white space becomes its separator. */
  lemma {:induction false} GapHead(s: string)
    requires s != [] && IsJsSpace(s[0])
    ensures var k := Span(s, IsJsSpace);
            CollapseNewlines(StripAroundNewlines(CollapseBlanks(s)))
            == GapSeparator(s[..k]) + CollapseNewlines(StripAroundNewlines(CollapseBlanks(s[k..])))
  {
    var k := Span(s, IsJsSpace);
    var g, y := s[..k], s[k..];
    SpanSkipped(s, IsJsSpace);
    assert s == g + y;
    CollapseBlanksAppend(g, y);
    var y1 := CollapseBlanks(y);
    if y != [] {
      assert y1[0] == y[0];
      assert Span(y1, IsSpace) == 0;
    }
    StripAppend(CollapseBlanks(g), y1);
    var y2 := StripAroundNewlines(y1);
    CollapseNewlinesAppend(StripAroundNewlines(CollapseBlanks(g)), y2);
    GapBecomesSeparator(g);
  }

  /** The first three rewrites of `cleanText` together put each maximal run of
      white space's separator in its place and keep everything else. */
  lemma {:induction false} RewritesAreSpaced(s: string)
    ensures CollapseNewlines(StripAroundNewlines(CollapseBlanks(s))) == Spaced(s)
    decreases |s|
  {
    if s == [] {
    } else if !IsJsSpace(s[0]) {
      PlainHead(s);
      RewritesAreSpaced(s[1..]);
    } else {
      GapHead(s);
      RewritesAreSpaced(s[Span(s, IsJsSpace)..]);
    }
  }

  /** `cleanText` is the layout `Spaced`, trimmed. */
  lemma {:induction false} CleanTextIsSpaced(s: string)
    ensures CleanText(s) == Trim(Spaced(s))
  {
    RewritesAreSpaced(s);
  }

  lemma {:induction false} SpacedAppend(x: string, z: string)
    requires x == [] || z == [] || !IsJsSpace(x[|x| - 1]) || !IsJsSpace(z[0])
    ensures Spaced(x + z) == Spaced(x) + Spaced(z)
    decreases |x|
  {
    if x == [] {
      assert x + z == z;
    } else if !IsJsSpace(x[0]) {
      var y := x[1..];
      assert y == [] || y[|y| - 1] == x[|x| - 1];
      SpacedAppend(y, z);
      SpacedPlainStep(x, z);
    } else if Span(x, IsJsSpace) < |x| {
      var y := x[Span(x, IsJsSpace)..];
      assert y[|y| - 1] == x[|x| - 1];
      SpacedAppend(y, z);
      SpacedRunInside(x, z);
    } else {
      SpanSkipped(x, IsJsSpace);
      SpacedRunToEnd(x, z);
    }
  }

  lemma {:induction false} SpacedPlainStep(x: string, z: string)
    requires x != [] && !IsJsSpace(x[0])
    requires Spaced(x[1..] + z) == Spaced(x[1..]) + Spaced(z)
    ensures Spaced(x + z) == Spaced(x) + Spaced(z)
  {
    AppendTail(x, z);
    SpacedUnfoldPlain(x + z);
    SpacedUnfoldPlain(x);
    ConcatAssoc([x[0]], Spaced(x[1..]), Spaced(z));
  }

  lemma {:induction false} SpacedRunInside(x: string, z: string)
    requires x != [] && IsJsSpace(x[0]) && Span(x, IsJsSpace) < |x|
    requires Spaced(x[Span(x, IsJsSpace)..] + z) == Spaced(x[Span(x, IsJsSpace)..]) + Spaced(z)
    ensures Spaced(x + z) == Spaced(x) + Spaced(z)
  {
    var m := Span(x, IsJsSpace);
    SpanAppend(x, z, IsJsSpace);
    assert (x + z)[0] == x[0];
    AppendSplit(x, z, m);
    SpacedUnfoldGap(x + z);
    SpacedUnfoldGap(x);
    ConcatAssoc(GapSeparator(x[..m]), Spaced(x[m..]), Spaced(z));
  }

  lemma {:induction false} SpacedRunToEnd(x: string, z: string)
    requires x != [] && IsJsSpace(x[0]) && Span(x, IsJsSpace) == |x|
    requires z == [] || !IsJsSpace(z[0])
    ensures Spaced(x + z) == Spaced(x) + Spaced(z)
  {
    SpanAppend(x, z, IsJsSpace);
    assert (x + z)[0] == x[0];
    AppendSplit(x, z, |x|);
    SpacedUnfoldGap(x + z);
    SpacedUnfoldGap(x);
  }

  lemma {:induction false} SpacedUnfoldPlain(s: string)
    requires s != [] && !IsJsSpace(s[0])
    ensures Spaced(s) == [s[0]] + Spaced(s[1..])
  {
  }

  lemma {:induction false} SpacedUnfoldGap(s: string)
    requires s != [] && IsJsSpace(s[0])
    ensures Spaced(s) == GapSeparator(s[..Span(s, IsJsSpace)]) + Spaced(s[Span(s, IsJsSpace)..])
  {
  }

  /** A gap between two words: a non-empty run of white space `g` with no
      white space on either side becomes its separator. */
  lemma {:induction false} SpacedGap(x: string, g: string, y: string)
    requires g != [] && forall i :: 0 <= i < |g| ==> IsJsSpace(g[i])
    requires x == [] || !IsJsSpace(x[|x| - 1])
    requires y == [] || !IsJsSpace(y[0])
    ensures Spaced(x + g + y) == Spaced(x) + GapSeparator(g) + Spaced(y)
  {
    ConcatAssoc(x, g, y);
    SpacedAppend(x, g + y);
    SpacedGapThen(g, y);
    ConcatAssoc(Spaced(x), GapSeparator(g), Spaced(y));
  }

  lemma {:induction false} SpacedGapThen(g: string, y: string)
    requires g != [] && forall i :: 0 <= i < |g| ==> IsJsSpace(g[i])
    requires y == [] || !IsJsSpace(y[0])
    ensures Spaced(g + y) == GapSeparator(g) + Spaced(y)
  {
    SpacedAppend(g, y);
    SpacedOfGap(g);
  }

  lemma {:induction false} SpacedOfGap(g: string)
    requires g != [] && forall i :: 0 <= i < |g| ==> IsJsSpace(g[i])
    ensures Spaced(g) == GapSeparator(g)
  {
    SpanExact(g, IsJsSpace, |g|);
    assert g[..|g|] == g && g[|g|..] == [];
  }

  /** Step 1 on a gap: a non-empty run of blanks between non-blanks becomes one space. */
  lemma {:induction false} CollapseBlanksGap(x: string, g: string, y: string)
    requires g != [] && forall i :: 0 <= i < |g| ==> IsBlankChar(g[i])
    requires x == [] || !IsBlankChar(x[|x| - 1])
    requires y == [] || !IsBlankChar(y[0])
    ensures CollapseBlanks(x + g + y) == CollapseBlanks(x) + " " + CollapseBlanks(y)
  {
    ConcatAssoc(x, g, y);
    CollapseBlanksAppend(x, g + y);
    CollapseBlanksGapThen(g, y);
    ConcatAssoc(CollapseBlanks(x), " ", CollapseBlanks(y));
  }

  lemma {:induction false} CollapseBlanksGapThen(g: string, y: string)
    requires g != [] && forall i :: 0 <= i < |g| ==> IsBlankChar(g[i])
    requires y == [] || !IsBlankChar(y[0])
    ensures CollapseBlanks(g + y) == " " + CollapseBlanks(y)
  {
    CollapseBlanksAppend(g, y);
    SpanExact(g, IsBlankChar, |g|);
    assert g[|g|..] == [];
  }

  /** Step 2 on a gap: spaces around a single line feed, between characters
      that are neither, become the line feed alone. */
  lemma {:induction false} StripGap(x: string, g: string, y: string)
    requires SpacesAndFeeds(g) && multiset(g)['\n'] == 1
    requires x == [] || NotInMatch(x[|x| - 1])
    requires y == [] || NotInMatch(y[0])
    ensures StripAroundNewlines(x + g + y)
            == StripAroundNewlines(x) + "\n" + StripAroundNewlines(y)
  {
    ConcatAssoc(x, g, y);
    StripAppend(x, g + y);
    StripGapThen(g, y);
    ConcatAssoc(StripAroundNewlines(x), "\n", StripAroundNewlines(y));
  }

  lemma {:induction false} StripGapThen(g: string, y: string)
    requires SpacesAndFeeds(g) && multiset(g)['\n'] == 1
    requires y == [] || NotInMatch(y[0])
    ensures StripAroundNewlines(g + y) == "\n" + StripAroundNewlines(y)
  {
    StripWhite(g);
    assert Feeds(1) == "\n";
    assert g != [];
    StripAppend(g, y);
  }

  /** Step 3 on a gap: a run of `n` line feeds becomes `NewlineRun(n)`. */
  lemma {:induction false} CollapseNewlinesGap(x: string, n: nat, y: string)
    requires n >= 1
    requires x == [] || x[|x| - 1] != '\n'
    requires y == [] || y[0] != '\n'
    ensures CollapseNewlines(x + Feeds(n) + y)
            == CollapseNewlines(x) + NewlineRun(n) + CollapseNewlines(y)
  {
    ConcatAssoc(x, Feeds(n), y);
    CollapseNewlinesAppend(x, Feeds(n) + y);
    CollapseNewlinesAppend(Feeds(n), y);
    CollapseNewlinesFeeds(n);
    ConcatAssoc(CollapseNewlines(x), NewlineRun(n), CollapseNewlines(y));
  }

  lemma {:induction false} SpacedFirst(y: string)
    requires y != [] && !IsJsSpace(y[0])
    ensures Spaced(y) != [] && Spaced(y)[0] == y[0]
  {
    SpacedUnfoldPlain(y);
  }

  lemma {:induction false} SpacedLast(x: string)
    requires x != [] && !IsJsSpace(x[|x| - 1])
    ensures Spaced(x) != [] && Spaced(x)[|Spaced(x)| - 1] == x[|x| - 1]
  {
    var p, c := x[..|x| - 1], [x[|x| - 1]];
    assert x == p + c;
    SpacedAppend(p, c);
    SpacedUnfoldPlain(c);
    assert c[1..] == [];
  }

  /** `cleanText` on two pieces of text joined by a gap: each piece is cleaned
      on its own, and the gap becomes its separator. */
  lemma {:induction false} CleanTextGap(x: string, g: string, y: string)
    requires x != [] && !IsJsSpace(x[|x| - 1])
    requires g != [] && forall i :: 0 <= i < |g| ==> IsJsSpace(g[i])
    requires y != [] && !IsJsSpace(y[0])
    ensures CleanText(x + g + y) == CleanText(x) + GapSeparator(g) + CleanText(y)
  {
    CleanTextIsSpaced(x + g + y);
    CleanTextIsSpaced(x);
    CleanTextIsSpaced(y);
    SpacedGap(x, g, y);
    SpacedLast(x);
    SpacedFirst(y);
    TrimAround(Spaced(x), GapSeparator(g), Spaced(y));
  }

  /** A single character that is not white space is already clean. */
  lemma {:induction false} CleanTextOfWordChar(c: char)
    requires !IsJsSpace(c)
    ensures CleanText([c]) == [c]
  {
    CleanTextIsSpaced([c]);
    SpacedUnfoldPlain([c]);
    assert [c][1..] == [];
    TrimIdentity([c]);
  }

  /** White space without a line feed between two words leaves exactly one
      space: the words are never glued together. */
  lemma {:induction false} CleanTextKeepsOneSpace(a: char, g: string, b: char)
    requires !IsJsSpace(a) && !IsJsSpace(b)
    requires g != [] && forall i :: 0 <= i < |g| ==> IsJsSpace(g[i]) && g[i] != '\n'
    ensures CleanText([a] + g + [b]) == [a, ' ', b]
  {
    CleanTextGap([a], g, [b]);
    CleanTextOfWordChar(a);
    CleanTextOfWordChar(b);
    NoFeedCount(g);
  }

  /** White space holding three line feeds or more between two words leaves
      one blank line. */
  lemma {:induction false} CleanTextKeepsBlankLine(a: char, g: string, b: char)
    requires !IsJsSpace(a) && !IsJsSpace(b)
    requires g != [] && (forall i :: 0 <= i < |g| ==> IsJsSpace(g[i])) && multiset(g)['\n'] >= 3
    ensures CleanText([a] + g + [b]) == [a, '\n', '\n', b]
  {
    CleanTextGap([a], g, [b]);
    CleanTextOfWordChar(a);
    CleanTextOfWordChar(b);
  }

  // Joining the page's text items (the `map`/`join("")` in renderPdf)

  /** An item of a page's text content: a run of text, or a marked-content
      marker that carries no `str`. */
  datatype TextItem = TextRun(str: string, hasEOL: bool) | MarkedContent

  /** What one item contributes: its text followed by a line feed when it ends
      a line and by a space otherwise; a marker contributes nothing. */
  function ItemText(item: TextItem): string {
    match item
    case TextRun(str, hasEOL) => str + (if hasEOL then "\n" else " ")
    case MarkedContent => ""
  }

  /** The raw page text: the items' contributions concatenated in order. */
  function RawText(items: seq<TextItem>): string {
    if items == [] then "" else ItemText(items[0]) + RawText(items[1..])
  }

  /** The text of a rendered page. */
  function PageText(items: seq<TextItem>): string {
    CleanText(RawText(items))
  }

  /** The item texts concatenated with no separator at all. */
  function ItemStrings(items: seq<TextItem>): string {
    if items == [] then ""
    else (if items[0].TextRun? then items[0].str else "") + ItemStrings(items[1..])
  }

  /** The raw text is the `join("")` of the items' contributions. */
  lemma {:induction false} RawTextIsJoin(items: seq<TextItem>)
    ensures RawText(items) == Join(seq(|items|, i requires 0 <= i < |items| => ItemText(items[i])), "")
  {
    var parts := seq(|items|, i requires 0 <= i < |items| => ItemText(items[i]));
    if |items| > 1 {
      RawTextIsJoin(items[1..]);
      assert parts[1..] == seq(|items[1..]|, i requires 0 <= i < |items[1..]| => ItemText(items[1..][i]));
    } else if |items| == 1 {
      assert items[1..] == [];
    }
  }

  /** Concatenating item lists concatenates their raw texts. */
  lemma {:induction false} RawTextAppend(a: seq<TextItem>, b: seq<TextItem>)
    ensures RawText(a + b) == RawText(a) + RawText(b)
  {
    if a == [] {
      assert a + b == b;
    } else {
      assert (a + b)[1..] == a[1..] + b;
      RawTextAppend(a[1..], b);
    }
  }

  /** The separators inserted between items are white space, so the page text
      holds exactly the non-white-space characters of the items' strings. */
  lemma {:induction false} PageTextKeepsContent(items: seq<TextItem>)
    ensures Visible(PageText(items)) == Visible(ItemStrings(items))
  {
    RawVisible(items);
  }

  lemma ItemVisible(item: TextItem)
    ensures Visible(ItemText(item)) == Visible(if item.TextRun? then item.str else "")
  {
    if item.TextRun? {
      var sep := if item.hasEOL then "\n" else " ";
      VisibleAppend(item.str, sep);
      VisibleAllSpace(sep);
    }
  }

  lemma {:induction false} RawVisible(items: seq<TextItem>)
    ensures Visible(RawText(items)) == Visible(ItemStrings(items))
  {
    if items != [] {
      var head := if items[0].TextRun? then items[0].str else "";
      RawVisible(items[1..]);
      VisibleAppend(ItemText(items[0]), RawText(items[1..]));
      ItemVisible(items[0]);
      VisibleAppend(head, ItemStrings(items[1..]));
    }
  }
}
