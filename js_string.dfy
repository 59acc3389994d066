/**
 * The JavaScript string built-ins the comparison code relies on: the white-space
 * class shared by `\s` and `String.prototype.trim`, `trim`, `toLowerCase`,
 * `slice`, `includes`, `Array.prototype.join` and the decimal rendering of a
 * non-negative integer in a template literal.
 *
 * A Dafny `char` is a Unicode scalar value; JavaScript strings are sequences of
 * UTF-16 code units. The two agree on every character of the Basic Multilingual
 * Plane.
 */
module JsString {

  /** White space as ECMA-262 defines it for `\s` and `trim`: WhiteSpace
      (tab, vertical tab, form feed, the byte-order mark and every Zs space)
      and LineTerminator (LF, CR, LS, PS). */
  predicate IsJsSpace(c: char) {
    var n := c as int;
    n == 0x09 || n == 0x0A || n == 0x0B || n == 0x0C || n == 0x0D || n == 0x20
    || n == 0xA0 || n == 0x1680 || (0x2000 <= n <= 0x200A) || n == 0x2028
    || n == 0x2029 || n == 0x202F || n == 0x205F || n == 0x3000 || n == 0xFEFF
  }

  predicate IsAsciiDigit(c: char) {
    '0' <= c <= '9'
  }

  /** Case folding as a regular expression with the `i` flag and without `u`
      performs it on ASCII letters; no other character folds onto an ASCII one. */
  function FoldAscii(c: char): (r: char)
    ensures 'A' <= c <= 'Z' ==> r as int == c as int + 32
    ensures !('A' <= c <= 'Z') ==> r == c
  {
    if 'A' <= c <= 'Z' then (c as int + 32) as char else c
  }

  function FoldAsciiString(s: string): (r: string)
    ensures |r| == |s| && forall i :: 0 <= i < |s| ==> r[i] == FoldAscii(s[i])
  {
    seq(|s|, i requires 0 <= i < |s| => FoldAscii(s[i]))
  }

  /** `toLowerCase` on one character: ASCII and Latin-1 capital letters map to
      their small letters; every other character is left as it is. */
  function ToLowerChar(c: char): (r: char)
    ensures 'A' <= c <= 'Z' ==> 'a' <= r <= 'z' && r as int == c as int + 32
    ensures !('A' <= c <= 'Z') && c as int < 0xC0 ==> r == c
  {
    if 'A' <= c <= 'Z' || (0xC0 <= c as int <= 0xDE && c as int != 0xD7)
    then (c as int + 32) as char
    else c
  }

  function ToLowerCase(s: string): (r: string)
    ensures |r| == |s| && forall i :: 0 <= i < |s| ==> r[i] == ToLowerChar(s[i])
  {
    seq(|s|, i requires 0 <= i < |s| => ToLowerChar(s[i]))
  }

  /** The length of the longest prefix of `s` whose characters all satisfy `p`. */
  function Span(s: string, p: char -> bool): (n: nat)
    ensures n <= |s| && (n < |s| ==> !p(s[n]))
    ensures s != [] && p(s[0]) ==> n >= 1
  {
    if s == [] || !p(s[0]) then 0 else 1 + Span(s[1..], p)
  }

  /** Every character `Span` counts satisfies `p`. */
  lemma {:induction false} SpanSkipped(s: string, p: char -> bool)
    ensures forall i :: 0 <= i < Span(s, p) ==> p(s[i])
  {
    if s != [] && p(s[0]) {
      SpanSkipped(s[1..], p);
      assert forall i :: 1 <= i < |s| ==> s[i] == s[1..][i - 1];
    }
  }

  /** `Span` is the only prefix length at which the run of `p` characters stops. */
  lemma {:induction false} SpanExact(s: string, p: char -> bool, n: nat)
    requires n <= |s| && (forall i :: 0 <= i < n ==> p(s[i])) && (n < |s| ==> !p(s[n]))
    ensures Span(s, p) == n
  {
    if n > 0 {
      assert p(s[0]);
      assert forall i :: 0 <= i < n - 1 ==> s[1..][i] == s[i + 1];
      SpanExact(s[1..], p, n - 1);
    }
  }

  /** The longest suffix of `s` that does not start with a character satisfying `p`. */
  function DropWhile(s: string, p: char -> bool): (r: string)
    ensures r == [] || !p(r[0])
  {
    s[Span(s, p)..]
  }

  /** The length of the longest suffix of `s` whose characters all satisfy `p`. */
  function SpanEnd(s: string, p: char -> bool): (n: nat)
    ensures n <= |s| && (n < |s| ==> !p(s[|s| - n - 1]))
  {
    if s == [] || !p(s[|s| - 1]) then 0 else 1 + SpanEnd(s[..|s| - 1], p)
  }

  lemma {:induction false} SpanEndSkipped(s: string, p: char -> bool)
    ensures forall i :: |s| - SpanEnd(s, p) <= i < |s| ==> p(s[i])
  {
    if s != [] && p(s[|s| - 1]) {
      SpanEndSkipped(s[..|s| - 1], p);
      assert forall i :: 0 <= i < |s| - 1 ==> s[i] == s[..|s| - 1][i];
    }
  }

  /** The longest prefix of `s` that does not end with a character satisfying `p`. */
  function DropWhileEnd(s: string, p: char -> bool): (r: string)
    ensures r == [] || !p(r[|r| - 1])
  {
    s[..|s| - SpanEnd(s, p)]
  }

  /** A suffix of a suffix of `s` is a suffix of `s`. */
  lemma SuffixOfSuffix(s: string, t: string, r: string)
    requires |t| <= |s| && t == s[|s| - |t|..]
    requires |r| <= |t| && r == t[|t| - |r|..]
    ensures r == s[|s| - |r|..]
  {
    forall i | 0 <= i < |r| ensures r[i] == s[|s| - |r| + i] {
      assert r[i] == t[|t| - |r| + i];
    }
  }

  /** `String.prototype.trim`: `s` without its leading and trailing white space. */
  function Trim(s: string): (r: string)
    ensures |r| <= |s|
    ensures r == [] || (!IsJsSpace(r[0]) && !IsJsSpace(r[|r| - 1]))
  {
    DropWhileEnd(DropWhile(s, IsJsSpace), IsJsSpace)
  }

  /** Where the trimmed text starts in `s`. */
  function TrimStart(s: string): (k: nat)
    ensures k <= |s|
  {
    Span(s, IsJsSpace)
  }

  /** The trimmed text is a slice of `s`... */
  lemma TrimIsSlice(s: string)
    ensures TrimStart(s) + |Trim(s)| <= |s|
    ensures Trim(s) == s[TrimStart(s)..TrimStart(s) + |Trim(s)|]
  {
  }

  /** ... and everything outside that slice is white space. */
  lemma TrimRemovesSpace(s: string)
    ensures forall i :: 0 <= i < TrimStart(s) ==> IsJsSpace(s[i])
    ensures forall i :: TrimStart(s) + |Trim(s)| <= i < |s| ==> IsJsSpace(s[i])
  {
    var t := DropWhile(s, IsJsSpace);
    var k := TrimStart(s);
    var n := |Trim(s)|;
    SpanSkipped(s, IsJsSpace);
    SpanEndSkipped(t, IsJsSpace);
    forall i | k + n <= i < |s| ensures IsJsSpace(s[i]) {
      assert s[i] == t[i - k];
    }
  }

  /** The leading run of `p` characters of `x + z`. */
  lemma {:induction false} SpanAppend(x: string, z: string, p: char -> bool)
    ensures Span(x + z, p) == if Span(x, p) < |x| then Span(x, p) else |x| + Span(z, p)
  {
    SpanSkipped(x, p);
    var m := Span(x, p);
    if m < |x| {
      assert forall i :: 0 <= i < m ==> (x + z)[i] == x[i];
      SpanExact(x + z, p, m);
    } else {
      SpanSkipped(z, p);
      var n := |x| + Span(z, p);
      assert forall i :: |x| <= i < n ==> (x + z)[i] == z[i - |x|];
      SpanExact(x + z, p, n);
    }
  }

  lemma {:induction false} ConcatAssoc(a: string, b: string, c: string)
    ensures a + (b + c) == (a + b) + c
  {
  }

  /** The head and the tail of `x + z`, for a non-empty `x`. */
  lemma {:induction false} AppendTail(x: string, z: string)
    requires x != []
    ensures (x + z)[0] == x[0] && (x + z)[1..] == x[1..] + z
  {
    assert (x + z)[1..] == x[1..] + z;
  }

  /** Cutting `x + z` inside `x`. */
  lemma {:induction false} AppendSplit(x: string, z: string, m: nat)
    requires m <= |x|
    ensures (x + z)[..m] == x[..m] && (x + z)[m..] == x[m..] + z
    ensures m == |x| ==> (x + z)[..m] == x && (x + z)[m..] == z && x[m..] == []
  {
    assert (x + z)[..m] == x[..m];
    assert (x + z)[m..] == x[m..] + z;
  }

  /** `SpanEnd` is the only suffix length at which the trailing run of `p` stops. */
  lemma {:induction false} SpanEndExact(s: string, p: char -> bool, n: nat)
    requires n <= |s| && (forall i :: |s| - n <= i < |s| ==> p(s[i]))
    requires n < |s| ==> !p(s[|s| - n - 1])
    ensures SpanEnd(s, p) == n
  {
    if n > 0 {
      var s' := s[..|s| - 1];
      assert forall i :: |s'| - (n - 1) <= i < |s'| ==> s'[i] == s[i];
      SpanEndExact(s', p, n - 1);
    }
  }

  lemma {:induction false} PrefixOfAppend(u: string, v: string, t: nat)
    requires t <= |v|
    ensures (u + v)[..|u| + t] == u + v[..t]
  {
    assert (u + v)[..|u| + t] == u + v[..t];
  }

  /** Trimming `a + s + b`, where `a` ends and `b` starts with a character that is
      not white space, trims `a` and `b` and keeps `s` between them. */
  lemma {:induction false} TrimAround(a: string, s: string, b: string)
    requires a != [] && !IsJsSpace(a[|a| - 1])
    requires b != [] && !IsJsSpace(b[0])
    ensures Trim(a + s + b) == Trim(a) + s + Trim(b)
  {
    var k := Span(a, IsJsSpace);
    SpanSkipped(a, IsJsSpace);
    assert k < |a|;
    var j := SpanEnd(b, IsJsSpace);
    SpanEndSkipped(b, IsJsSpace);
    assert j < |b|;
    var u := a[k..] + s;
    DropAround(a, s, b);
    assert DropWhile(a + s + b, IsJsSpace) == u + b;
    SpanEndOfAppend(u, b);
    PrefixOfAppend(u, b, |b| - j);
    assert Trim(a + s + b) == u + b[..|b| - j];
    assert Trim(a) == a[k..];
    assert b[Span(b, IsJsSpace)..] == b;
    assert Trim(b) == b[..|b| - j];
  }

  lemma {:induction false} DropAround(a: string, s: string, b: string)
    requires a != [] && !IsJsSpace(a[|a| - 1])
    ensures DropWhile(a + s + b, IsJsSpace) == a[Span(a, IsJsSpace)..] + s + b
  {
    var k := Span(a, IsJsSpace);
    SpanSkipped(a, IsJsSpace);
    assert k < |a|;
    assert a + s + b == a + (s + b);
    assert forall i :: 0 <= i < k ==> (a + (s + b))[i] == a[i];
    SpanExact(a + (s + b), IsJsSpace, k);
    assert (a + (s + b))[k..] == a[k..] + s + b;
  }

  /** The trailing white space of `u + b` is that of `b`, when `b` is not all white space. */
  lemma {:induction false} SpanEndOfAppend(u: string, b: string)
    requires SpanEnd(b, IsJsSpace) < |b|
    ensures SpanEnd(u + b, IsJsSpace) == SpanEnd(b, IsJsSpace)
  {
    var j := SpanEnd(b, IsJsSpace);
    var d := u + b;
    SpanEndSkipped(b, IsJsSpace);
    assert forall i :: |d| - j <= i < |d| ==> d[i] == b[i - |u|];
    assert d[|d| - j - 1] == b[|b| - j - 1];
    SpanEndExact(d, IsJsSpace, j);
  }

  /** `!s.trim()`: the string is empty or made only of white space. */
  predicate IsBlank(s: string) {
    Trim(s) == []
  }

  lemma BlankIffAllSpace(s: string)
    ensures IsBlank(s) <==> forall i :: 0 <= i < |s| ==> IsJsSpace(s[i])
  {
    TrimIsSlice(s);
    TrimRemovesSpace(s);
    var r := Trim(s);
    if r != [] {
      assert s[TrimStart(s)] == r[0];
    }
  }

  /** `s.slice(start, end)` for non-negative bounds: both are clamped to `|s|`,
      and a start past the end gives the empty string. */
  function Slice(s: string, start: nat, end: nat): (r: string)
    ensures start <= end <= |s| ==> r == s[start..end]
    ensures start >= |s| || end <= start ==> r == []
    ensures start <= |s| <= end ==> r == s[start..]
  {
    var a := if start < |s| then start else |s|;
    var b := if end < |s| then end else |s|;
    if a <= b then s[a..b] else []
  }

  /** `needle` occurs in `hay` starting at position `i`. */
  predicate OccursAt(hay: string, needle: string, i: nat) {
    i + |needle| <= |hay| && hay[i..i + |needle|] == needle
  }

  /** `hay.includes(needle)`. */
  predicate Includes(hay: string, needle: string) {
    exists i :: 0 <= i <= |hay| && OccursAt(hay, needle, i)
  }

  lemma IncludesEmpty(hay: string)
    ensures Includes(hay, [])
  {
    assert OccursAt(hay, [], 0);
  }

  /** `parts.join(sep)`. */
  function Join(parts: seq<string>, sep: string): string
  {
    if |parts| == 0 then ""
    else if |parts| == 1 then parts[0]
    else parts[0] + sep + Join(parts[1..], sep)
  }

  /** The position in `Join(parts, sep)` at which `parts[k]` starts. */
  function JoinOffset(parts: seq<string>, sep: string, k: nat): nat
    requires k < |parts|
  {
    if k == 0 then 0 else |parts[0]| + |sep| + JoinOffset(parts[1..], sep, k - 1)
  }

  /** A slice of the second half of a concatenation. */
  lemma SliceOfAppend(a: string, b: string, i: nat, j: nat)
    requires i <= j <= |b|
    ensures (a + b)[|a| + i..|a| + j] == b[i..j]
  {
  }

  /** A slice of a prefix is the same slice of the whole. */
  lemma SliceOfPrefix(s: string, n: nat, i: nat, j: nat)
    requires i <= j <= n <= |s|
    ensures s[..n][i..j] == s[i..j]
  {
    assert forall k :: 0 <= k < j - i ==> s[..n][i..j][k] == s[i + k];
  }

  /** Every part occurs in the joined string at its offset. */
  lemma {:induction false} JoinPartAt(parts: seq<string>, sep: string, k: nat)
    requires k < |parts|
    ensures JoinOffset(parts, sep, k) + |parts[k]| <= |Join(parts, sep)|
    ensures Join(parts, sep)[JoinOffset(parts, sep, k)..JoinOffset(parts, sep, k) + |parts[k]|] == parts[k]
  {
    if k == 0 {
      if |parts| > 1 {
        var rest := Join(parts[1..], sep);
        assert Join(parts, sep) == parts[0] + (sep + rest);
      }
    } else {
      JoinPartAt(parts[1..], sep, k - 1);
      var head := parts[0] + sep;
      var rest := Join(parts[1..], sep);
      assert Join(parts, sep) == head + rest;
      var o := JoinOffset(parts[1..], sep, k - 1);
      assert parts[1..][k - 1] == parts[k];
      SliceOfAppend(head, rest, o, o + |parts[k]|);
    }
  }

  /** The separator follows every part but the last, and the next part
      starts right after it. */
  lemma {:induction false} JoinSeparatorAfter(parts: seq<string>, sep: string, k: nat)
    requires k + 1 < |parts|
    ensures JoinOffset(parts, sep, k + 1) == JoinOffset(parts, sep, k) + |parts[k]| + |sep|
    ensures JoinOffset(parts, sep, k + 1) <= |Join(parts, sep)|
    ensures Join(parts, sep)[JoinOffset(parts, sep, k) + |parts[k]|..JoinOffset(parts, sep, k + 1)] == sep
  {
    var rest := Join(parts[1..], sep);
    if k == 0 {
      assert Join(parts, sep) == parts[0] + (sep + rest);
      SliceOfAppend(parts[0], sep + rest, 0, |sep|);
    } else {
      JoinSeparatorAfter(parts[1..], sep, k - 1);
      var head := parts[0] + sep;
      assert Join(parts, sep) == head + rest;
      var o := JoinOffset(parts[1..], sep, k - 1);
      assert parts[1..][k - 1] == parts[k];
      SliceOfAppend(head, rest, o + |parts[k]|, o + |parts[k]| + |sep|);
    }
  }

  function DigitChar(d: nat): (c: char)
    requires d < 10
    ensures IsAsciiDigit(c) && c as int - '0' as int == d
  {
    ('0' as int + d) as char
  }

  /** The decimal rendering of a non-negative integer, as `${n}` produces it. */
  function Decimal(n: nat): (r: string)
    ensures |r| >= 1 && forall i :: 0 <= i < |r| ==> IsAsciiDigit(r[i])
    ensures |r| == 1 <==> n < 10
  {
    if n < 10 then [DigitChar(n)] else Decimal(n / 10) + [DigitChar(n % 10)]
  }

  /** Distinct numbers render differently. */
  lemma {:induction false} DecimalInjective(a: nat, b: nat)
    requires Decimal(a) == Decimal(b)
    ensures a == b
  {
    if 10 <= a {
      var da, db := Decimal(a), Decimal(b);
      assert da[|da| - 1] == DigitChar(a % 10);
      assert db[|db| - 1] == DigitChar(b % 10);
      assert da[..|da| - 1] == Decimal(a / 10);
      assert db[..|db| - 1] == Decimal(b / 10);
      DecimalInjective(a / 10, b / 10);
    } else {
      assert Decimal(a)[0] == DigitChar(a);
      assert Decimal(b)[0] == DigitChar(b);
    }
  }

  /** A run of digits followed by a separator that is not a digit can be split
      off a string in one way only. */
  lemma DigitsThenSeparator(x: string, c: char, y: string, x': string, y': string)
    requires !IsAsciiDigit(c)
    requires forall i :: 0 <= i < |x| ==> IsAsciiDigit(x[i])
    requires forall i :: 0 <= i < |x'| ==> IsAsciiDigit(x'[i])
    requires x + [c] + y == x' + [c] + y'
    ensures x == x' && y == y'
  {
    var s := x + [c] + y;
    SpanExact(s, IsAsciiDigit, |x|);
    SpanExact(x' + [c] + y', IsAsciiDigit, |x'|);
    assert x == s[..|x|] == x';
    assert y == s[|x| + 1..] == y';
  }
}
