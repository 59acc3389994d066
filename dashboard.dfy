/**
 * The two computations of the dashboard page: the SKU read off a dropped
 * file's name, and the search filter over the references.
 */
module Dashboard {
  import opened Wrappers
  import opened JsString
  import opened SeqUtil
  import opened BlobStorage

  /** `[_\s]`: what may separate the marker from the SKU. */
  predicate IsSkuSeparator(c: char) {
    c == '_' || IsJsSpace(c)
  }

  /** `[^_\s-]`: a character of the SKU itself. */
  predicate IsSkuChar(c: char) {
    c != '_' && c != '-' && !IsJsSpace(c)
  }

  /** The marker "SKU", in any ASCII case, at position `i`. */
  predicate MarkerAt(name: string, i: nat) {
    i + 3 <= |name|
    && FoldAscii(name[i]) == 's' && FoldAscii(name[i + 1]) == 'k' && FoldAscii(name[i + 2]) == 'u'
  }

  /** Where `/SKU[_\s]?([^_\s-]+)/i`, tried at position `i`, starts its
      capture: right after the marker, or after one separator that follows
      it; `None` exactly when the pattern cannot match at `i`. */
  function CaptureStart(name: string, i: nat): (st: Option<nat>)
    ensures st.Some? ==> MarkerAt(name, i) && i + 3 <= st.value <= i + 4 && st.value < |name| && IsSkuChar(name[st.value])
    ensures st.Some? && st.value == i + 4 ==> IsSkuSeparator(name[i + 3])
    ensures MarkerAt(name, i) && i + 3 < |name| && IsSkuChar(name[i + 3]) ==> st == Some(i + 3)
    ensures MarkerAt(name, i) && i + 4 < |name| && IsSkuSeparator(name[i + 3]) && IsSkuChar(name[i + 4]) ==>
              st == Some(i + 4)
  {
    if !MarkerAt(name, i) then None
    else
      var j := i + 3;
      if j < |name| && IsSkuSeparator(name[j]) then
        if j + 1 < |name| && IsSkuChar(name[j + 1]) then Some(j + 1) else None
      else if j < |name| && IsSkuChar(name[j]) then Some(j)
      else None
  }

  /** The greedy capture `([^_\s-]+)` from `st`. */
  function Capture(name: string, st: nat): string
    requires st <= |name|
  {
    name[st..st + Span(name[st..], IsSkuChar)]
  }

  /** The first position from `i` on where the pattern matches: the
      regular expression engine tries the start positions left to right. */
  function FirstMatch(name: string, i: nat): (p: Option<nat>)
    requires i <= |name|
    decreases |name| - i
    ensures p.Some? ==> i <= p.value <= |name| && CaptureStart(name, p.value).Some?
    ensures p.Some? ==> forall q :: i <= q < p.value ==> CaptureStart(name, q).None?
    ensures p.None? ==> forall q :: i <= q <= |name| ==> CaptureStart(name, q).None?
  {
    if CaptureStart(name, i).Some? then Some(i)
    else if i == |name| then None
    else FirstMatch(name, i + 1)
  }

  /** `file.name.match(/SKU[_\s]?([^_\s-]+)/i)?.[1]`. */
  function ExtractSku(name: string): Option<string> {
    match FirstMatch(name, 0)
    case Some(p) => Some(Capture(name, CaptureStart(name, p).value))
    case None => None
  }

  /** The SKU sent with an upload: the extracted one, else the random
      fallback the page draws. */
  function UploadSku(name: string, fallback: string): string {
    match ExtractSku(name)
    case Some(s) => s
    case None => fallback
  }

  /** The capture is the longest run of SKU characters at its start: not
      empty, free of `_`, white space and `-`, and not followed by another
      SKU character. */
  lemma CaptureIsMaximalRun(name: string, st: nat)
    requires st < |name| && IsSkuChar(name[st])
    ensures var s := Capture(name, st);
      && 1 <= |s| && st + |s| <= |name| && s == name[st..st + |s|]
      && (forall k :: 0 <= k < |s| ==> IsSkuChar(s[k]))
      && (st + |s| == |name| || !IsSkuChar(name[st + |s|]))
  {
    var n := Span(name[st..], IsSkuChar);
    SpanSkipped(name[st..], IsSkuChar);
    assert name[st..][0] == name[st];
    if st + n < |name| {
      assert name[st..][n] == name[st + n];
    }
  }

  /** A match of the pattern at `p` whose capture starts at `st` yields `s`. */
  predicate SkuMatch(name: string, p: nat, st: nat, s: string) {
    && p <= |name| && CaptureStart(name, p) == Some(st)
    && MarkerAt(name, p) && p + 3 <= st <= p + 4
    && 1 <= |s| && st + |s| <= |name| && s == name[st..st + |s|]
    && (forall k :: 0 <= k < |s| ==> IsSkuChar(s[k]))
    && (st + |s| == |name| || !IsSkuChar(name[st + |s|]))
  }

  /** An extracted SKU follows the leftmost "SKU" marker at which the pattern
      matches, after at most one separator, and is the longest run of SKU
      characters there. */
  lemma ExtractedSkuIsLeftmostMatch(name: string)
    requires ExtractSku(name).Some?
    ensures exists p: nat, st: nat :: SkuMatch(name, p, st, ExtractSku(name).value)
              && forall q :: 0 <= q < p ==> CaptureStart(name, q).None?
  {
    var p := FirstMatch(name, 0).value;
    var st := CaptureStart(name, p).value;
    CaptureIsMaximalRun(name, st);
    assert SkuMatch(name, p, st, ExtractSku(name).value);
  }

  /** A run of `n` SKU characters at `st` that nothing extends is the capture. */
  lemma CaptureExact(name: string, st: nat, n: nat)
    requires st + n <= |name| && (forall k :: st <= k < st + n ==> IsSkuChar(name[k]))
    requires st + n == |name| || !IsSkuChar(name[st + n])
    ensures Capture(name, st) == name[st..st + n]
  {
    assert forall k :: 0 <= k < n ==> name[st..][k] == name[st + k];
    SpanExact(name[st..], IsSkuChar, n);
  }

  /** Conversely, the leftmost match and the longest run of SKU characters
      at its capture determine the extracted SKU. */
  lemma {:induction false} LeftmostMatchIsExtracted(name: string, p: nat, st: nat, s: string)
    requires SkuMatch(name, p, st, s)
    requires forall q :: 0 <= q < p ==> CaptureStart(name, q).None?
    ensures ExtractSku(name) == Some(s)
  {
    FirstMatchIsLeftmost(name, 0, p);
    var n := |s|;
    assert forall k :: 0 <= k < n ==> name[st..][k] == s[k];
    SpanExact(name[st..], IsSkuChar, n);
  }

  lemma {:induction false} FirstMatchIsLeftmost(name: string, i: nat, p: nat)
    requires i <= p <= |name| && CaptureStart(name, p).Some?
    requires forall q :: i <= q < p ==> CaptureStart(name, q).None?
    decreases p - i
    ensures FirstMatch(name, i) == Some(p)
  {
    if i < p {
      FirstMatchIsLeftmost(name, i + 1, p);
    }
  }

  /** The capture keeps characters that are not separators, such as the dot
      of the file extension: "SKU_ABC.pdf" gives "ABC.pdf". */
  lemma ExtensionIsCaptured()
    ensures ExtractSku("SKU_ABC.pdf") == Some("ABC.pdf")
  {
    assert CaptureStart("SKU_ABC.pdf", 0) == Some(4);
    LeftmostMatchIsExtracted("SKU_ABC.pdf", 0, 4, "ABC.pdf");
  }

  /** The separator is optional: "SKU1V13.pdf" gives "1V13.pdf". */
  lemma ExtractsWithoutSeparator()
    ensures ExtractSku("SKU1V13.pdf") == Some("1V13.pdf")
  {
    LeftmostMatchIsExtracted("SKU1V13.pdf", 0, 3, "1V13.pdf");
  }

  /** The pattern is tried left to right, and the capture stops at the next
      separator: "a SKU 1V13_FR" gives "1V13". */
  lemma SkuEndsAtSeparator()
    ensures ExtractSku("a SKU 1V13_FR") == Some("1V13")
  {
    assert CaptureStart("a SKU 1V13_FR", 0).None?;
    assert CaptureStart("a SKU 1V13_FR", 1).None?;
    assert CaptureStart("a SKU 1V13_FR", 2) == Some(6);
    LeftmostMatchIsExtracted("a SKU 1V13_FR", 2, 6, "1V13");
  }

  /** The dashboard search: the lowercased query occurs in the lowercased
      SKU, product name or description. */
  predicate MatchesSearch(r: Reference, search: string) {
    var q := ToLowerCase(search);
    Includes(ToLowerCase(r.sku), q) || Includes(ToLowerCase(r.productName), q)
    || Includes(ToLowerCase(r.description), q)
  }

  /** `references.filter(...)`. */
  function Filtered(refs: seq<Reference>, search: string): seq<Reference> {
    Filter(refs, (r: Reference) => MatchesSearch(r, search))
  }

  /** The filter keeps exactly the matching references, in order and each as
      many times as it occurs; an empty query keeps them all. */
  lemma FilteredExact(refs: seq<Reference>, search: string)
    ensures forall r :: r in Filtered(refs, search) <==> r in refs && MatchesSearch(r, search)
    ensures IsSubsequence(Filtered(refs, search), refs)
    ensures search == "" ==> Filtered(refs, search) == refs
    ensures forall r :: multiset(Filtered(refs, search))[r] ==
              if MatchesSearch(r, search) then multiset(refs)[r] else 0
  {
    var p := (r: Reference) => MatchesSearch(r, search);
    FilterMembers(refs, p);
    FilterIsSubsequence(refs, p);
    FilterCount(refs, p);
    if search == "" {
      forall i | 0 <= i < |refs| ensures p(refs[i]) {
        IncludesEmpty(ToLowerCase(refs[i].sku));
      }
      FilterKeepsAll(refs, p);
    }
  }

  lemma ToLowerCaseIdempotent(s: string)
    ensures ToLowerCase(ToLowerCase(s)) == ToLowerCase(s)
  {
  }

  /** The search ignores the case of the query. */
  lemma SearchIgnoresQueryCase(r: Reference, search: string)
    ensures MatchesSearch(r, ToLowerCase(search)) == MatchesSearch(r, search)
  {
    ToLowerCaseIdempotent(search);
  }
}
