/**
 * POST /api/spellcheck: the text is checked in French and in US English, only
 * the French errors that the English check flags at the same place are kept,
 * and domain words (cosmetic ingredient names, product codes, brand words,
 * numbers and measures) are then dropped as false positives.
 */
module SpellcheckRoute {
  import opened Wrappers
  import opened JsString
  import opened SeqUtil
  import opened Spellcheck

  /** LanguageTool rules that are always ignored on bilingual packaging. */
  predicate IsIgnoredRule(rule: string) {
    rule in {"FRENCH_WHITESPACE", "FR_TYPOGRAPHY", "UNPAIRED_BRACKETS"}
  }

  /** The ingredient (INCI) names of the ingredient pattern, in lower case. */
  predicate IsInciTerm(t: string) {
    t in {
    "sodium", "potassium", "aqua", "parfum", "citric", "acid", "sulfate", "chloride", "benzoate",
    "sorbate", "bicarbonate", "gluconate", "citrate", "betaine", "cocamidopropyl", "coco", "xanthan",
    "gum", "fragrance", "olea", "europaea", "olive", "fruit", "oil", "tocopherol", "glycerin", "aloe",
    "barbadensis", "leaf", "juice", "cocos", "nucifera", "prunus", "amygdalus", "dulcis",
    "butyrospermum", "parkii", "shea", "helianthus", "annuus", "seed", "simmondsia", "chinensis",
    "jojoba", "rosa", "canina", "rosehip", "lavandula", "angustifolia", "melaleuca", "alternifolia",
    "chamomilla", "recutita", "calendula", "officinalis", "centella", "asiatica", "panthenol",
    "niacinamide", "hyaluronic", "retinol", "ascorbic", "linalool", "limonene", "citronellol",
    "geraniol", "eugenol", "coumarin", "benzyl", "salicylate", "hexyl", "cinnamal"}
  }

  predicate IsAsciiLetter(c: char) {
    'a' <= c <= 'z' || 'A' <= c <= 'Z'
  }

  predicate IsAsciiAlnum(c: char) {
    IsAsciiLetter(c) || IsAsciiDigit(c)
  }

  /** A character of `\w` (outside Unicode mode). */
  predicate IsWordChar(c: char) {
    IsAsciiAlnum(c) || c == '_'
  }

  /** A word boundary `\b` at position `i` of `w`, next to a word character on
      the other side. */
  predicate BoundaryBefore(w: string, i: nat)
    requires i <= |w|
  {
    i == 0 || !IsWordChar(w[i - 1])
  }

  predicate BoundaryAfter(w: string, i: nat)
    requires i <= |w|
  {
    i == |w| || !IsWordChar(w[i])
  }

  /** The slice `w[i..j]` is an ingredient name, case-insensitively, standing
      as a whole word. */
  predicate InciAt(w: string, i: nat, j: nat)
    requires i <= j <= |w|
  {
    IsInciTerm(FoldAsciiString(w[i..j])) && BoundaryBefore(w, i) && BoundaryAfter(w, j)
  }

  /** The ingredient pattern `\b(sodium|...|cinnamal)\b` with the `i` flag
      finds a match somewhere in `w`. */
  predicate HasInciTerm(w: string) {
    exists i, j :: 0 <= i <= j <= |w| && InciAt(w, i, j)
  }

  /** `^[A-Z0-9]{8,}$` with the `i` flag: eight or more ASCII letters or digits
      and nothing else. Any long enough plain word qualifies, not only codes
      mixing letters and digits. */
  predicate IsSkuLike(w: string) {
    |w| >= 8 && forall i :: 0 <= i < |w| ==> IsAsciiAlnum(w[i])
  }

  /** The brand vocabulary, in lower case. */
  const BrandWords: set<string> := {
    "\U{00E9}co-recharger", "\U{00E9}co-recharge", "\U{00E9}co-rechargeable", "ecorefill", "900care"}

  predicate IsBrandWord(w: string) {
    ToLowerCase(w) in BrandWords
  }

  /** `^[\d\s]+$`: a bar code or plain number. */
  predicate IsDigitsOrSpaces(w: string) {
    |w| >= 1 && forall i :: 0 <= i < |w| ==> IsAsciiDigit(w[i]) || IsJsSpace(w[i])
  }

  /** `[\d.,]`. */
  predicate IsNumberChar(c: char) {
    IsAsciiDigit(c) || c == '.' || c == ','
  }

  /** The units of the measure pattern, case-folded (`mL` folds onto `ml`,
      `fl\.?oz` is `fl.oz` or `floz`). */
  predicate IsUnit(u: string) {
    u in {"g", "oz", "ml", "fl.oz", "floz", "mm", "cm", "kg", "lb"}
  }

  /** `(g|oz|ml|mL|fl\.?oz|mm|cm|kg|lb)?\??` after case folding. */
  predicate IsMeasureTail(t: string) {
    || t == "" || t == "?" || IsUnit(t)
    || (|t| >= 2 && t[|t| - 1] == '?' && IsUnit(t[..|t| - 1]))
  }

  /** The measure pattern `^[\d.,]+\s*(unit)?\??$` with the `i` flag, as a
      decomposition: a non-empty number, white space, then a unit and an
      optional question mark. */
  predicate MeasureSplit(w: string, a: nat, b: nat) {
    && 1 <= a <= b <= |w|
    && (forall i :: 0 <= i < a ==> IsNumberChar(w[i]))
    && (forall i :: a <= i < b ==> IsJsSpace(w[i]))
    && TailFrom(w, b)
  }

  /** What is left of `w` from `b` on is a unit and question mark tail. */
  predicate TailFrom(w: string, b: nat) {
    b <= |w| && IsMeasureTail(FoldAsciiString(w[b..]))
  }

  ghost predicate MatchesMeasurePattern(w: string) {
    exists a: nat, b: nat :: MeasureSplit(w, a, b)
  }

  /** The measure test as it can be decided in one pass: the longest number
      prefix, then the longest run of white space, then the tail. */
  predicate IsMeasure(w: string) {
    var a := Span(w, IsNumberChar);
    a >= 1 && TailFrom(w, a + Span(w[a..], IsJsSpace))
  }

  /** A tail that is not empty starts with a letter or `?`, which is neither a
      number character nor white space. */
  lemma TailStart(t: string)
    requires IsMeasureTail(t) && t != []
    ensures t[0] == '?' || IsAsciiLetter(t[0])
  {
  }

  /** Where the one-pass test succeeds, its runs are a decomposition. */
  lemma MeasureMatchesPattern(w: string)
    requires IsMeasure(w)
    ensures MatchesMeasurePattern(w)
  {
    var a := Span(w, IsNumberChar);
    var b := a + Span(w[a..], IsJsSpace);
    SpanSkipped(w, IsNumberChar);
    SpanSkipped(w[a..], IsJsSpace);
    assert forall i :: a <= i < b ==> w[i] == w[a..][i - a];
    assert MeasureSplit(w, a, b);
  }

  /** In any decomposition the number and the white space are the longest
      runs, since the tail starts with neither. */
  lemma SplitIsLongestRuns(w: string, a: nat, b: nat)
    requires MeasureSplit(w, a, b)
    ensures Span(w, IsNumberChar) == a && a + Span(w[a..], IsJsSpace) == b
  {
    var t := FoldAsciiString(w[b..]);
    if b < |w| {
      assert t[0] == FoldAscii(w[b]);
      TailStart(t);
    }
    SpanExact(w, IsNumberChar, a);
    assert forall i :: 0 <= i < b - a ==> w[a..][i] == w[a + i];
    SpanExact(w[a..], IsJsSpace, b - a);
  }

  /** Every decomposition passes the one-pass test. */
  lemma SplitPassesMeasure(w: string, a: nat, b: nat)
    requires MeasureSplit(w, a, b)
    ensures IsMeasure(w)
  {
    SplitIsLongestRuns(w, a, b);
    assert TailFrom(w, b);
  }

  /** The one-pass test decides the pattern. */
  lemma MeasureIffPattern(w: string)
    ensures IsMeasure(w) <==> MatchesMeasurePattern(w)
  {
    if IsMeasure(w) {
      MeasureMatchesPattern(w);
    }
    if MatchesMeasurePattern(w) {
      var a, b :| MeasureSplit(w, a, b);
      SplitPassesMeasure(w, a, b);
    }
  }

  /** `isFalsePositive(word, rule)`. */
  predicate IsFalsePositive(word: string, rule: string) {
    || IsIgnoredRule(rule)
    || HasInciTerm(word)
    || IsSkuLike(word)
    || IsBrandWord(word)
    || IsDigitsOrSpaces(word)
    || IsMeasure(word)
  }

  /** The ignored rules suppress an error whatever the word. */
  lemma IgnoredRuleIsFalsePositive(word: string)
    ensures IsFalsePositive(word, "FRENCH_WHITESPACE")
    ensures IsFalsePositive(word, "FR_TYPOGRAPHY")
    ensures IsFalsePositive(word, "UNPAIRED_BRACKETS")
  {
  }

  /** In a word made only of word characters a boundary can only sit at
      either end, so a term matches only as the whole word. */
  lemma WholeWordMatch(w: string, i: nat, j: nat)
    requires forall k :: 0 <= k < |w| ==> IsWordChar(w[k])
    requires 1 <= |w| && i <= j <= |w| && InciAt(w, i, j)
    ensures i == 0 && j == |w|
  {
  }

  /** Such a word is an ingredient match exactly when it is an ingredient name. */
  lemma WordWithoutSeparators(w: string)
    requires forall k :: 0 <= k < |w| ==> IsWordChar(w[k])
    requires |w| >= 1
    ensures HasInciTerm(w) <==> IsInciTerm(FoldAsciiString(w))
  {
    assert w[0..|w|] == w;
    if HasInciTerm(w) {
      var i, j :| 0 <= i <= j <= |w| && InciAt(w, i, j);
      WholeWordMatch(w, i, j);
    }
    if IsInciTerm(FoldAsciiString(w)) {
      assert InciAt(w, 0, |w|);
    }
  }

  /** An ingredient name standing as its own word, in any ASCII case, is a
      false positive: "Sodium", or "SODIUM" inside "laureth(SODIUM)". */
  lemma IngredientIsFalsePositive(rule: string)
    ensures IsFalsePositive("Sodium", rule)
    ensures IsFalsePositive("laureth(SODIUM)", rule)
  {
    assert "Sodium"[0..6] == "Sodium";
    assert FoldAsciiString("Sodium") == "sodium";
    assert InciAt("Sodium", 0, 6);
    assert "laureth(SODIUM)"[8..14] == "SODIUM";
    assert FoldAsciiString("SODIUM") == "sodium";
    assert InciAt("laureth(SODIUM)", 8, 14);
  }

  /** Any word of eight or more ASCII letters is suppressed as a product code,
      so the misspelling "Shampoing" is never reported, whatever the rule. */
  lemma LongPlainWordIsFalsePositive(word: string, rule: string)
    requires |word| >= 8 && forall i :: 0 <= i < |word| ==> IsAsciiLetter(word[i])
    ensures IsSkuLike(word) && IsFalsePositive(word, rule)
  {
  }

  lemma MisspellingHiddenAsCode()
    ensures IsSkuLike("Shampoing")
  {
  }

  /** A decomposition found by hand decides the one-pass test. */
  lemma MeasureExample(w: string, a: nat, b: nat, tail: string)
    requires 1 <= a <= b <= |w|
    requires forall i :: 0 <= i < a ==> IsNumberChar(w[i])
    requires forall i :: a <= i < b ==> IsJsSpace(w[i])
    requires FoldAsciiString(w[b..]) == tail && IsMeasureTail(tail)
    ensures IsMeasure(w)
  {
    assert MeasureSplit(w, a, b);
    SplitIsLongestRuns(w, a, b);
  }

  /** Measures with and without a unit pass the measure test, and so are
      false positives under any rule. */
  lemma MetricMeasure()
    ensures IsMeasure("240ml")
  {
    MeasureExample("240ml", 3, 3, "ml");
  }

  lemma ImperialMeasure()
    ensures IsMeasure("0.85oz")
  {
    MeasureExample("0.85oz", 4, 4, "oz");
  }

  lemma SpacedMeasure()
    ensures IsMeasure("12 FL.OZ?")
  {
    assert "12 FL.OZ?"[3..] == "FL.OZ?" && FoldAsciiString("FL.OZ?") == "fl.oz?";
    assert "fl.oz?"[..5] == "fl.oz";
    MeasureExample("12 FL.OZ?", 2, 3, "fl.oz?");
  }

  lemma BareNumber()
    ensures IsMeasure("8,12")
  {
    MeasureExample("8,12", 4, 4, "");
  }

  /** A short misspelling under a spelling rule is kept. */
  lemma ShortMisspellingIsReported()
    ensures !IsFalsePositive("Savn", "MORFOLOGIK_RULE_FR")
  {
    var w := "Savn";
    assert FoldAsciiString(w) == "savn" && !IsInciTerm("savn");
    WordWithoutSeparators(w);
    assert ToLowerCase(w)[0] == 's';
  }

  /** A spelling error is identified by where it is: `${offset}:${length}`. */
  function ErrorKey(e: SpellError): string {
    Decimal(e.offset) + ":" + Decimal(e.length)
  }

  /** The textual key identifies the pair (offset, length). */
  lemma ErrorKeyInjective(e: SpellError, f: SpellError)
    ensures ErrorKey(e) == ErrorKey(f) <==> e.offset == f.offset && e.length == f.length
  {
    if ErrorKey(e) == ErrorKey(f) {
      DigitsThenSeparator(Decimal(e.offset), ':', Decimal(e.length), Decimal(f.offset), Decimal(f.length));
      DecimalInjective(e.offset, f.offset);
      DecimalInjective(e.length, f.length);
    }
  }

  function KeySet(errors: seq<SpellError>): set<string> {
    set e | e in errors :: ErrorKey(e)
  }

  /** The French errors that the English check also flags. */
  function Reconcile(fr: seq<SpellError>, en: seq<SpellError>): seq<SpellError> {
    var keys := KeySet(en);
    Filter(fr, (e: SpellError) => ErrorKey(e) in keys)
  }

  /** Reconciliation keeps exactly the French errors that have an English error
      at the same offset with the same length, in French order and each as many
      times as it occurs. */
  lemma ReconcileExact(fr: seq<SpellError>, en: seq<SpellError>)
    ensures IsSubsequence(Reconcile(fr, en), fr)
    ensures forall e :: e in Reconcile(fr, en) <==>
              e in fr && exists f :: f in en && f.offset == e.offset && f.length == e.length
    ensures forall e :: multiset(Reconcile(fr, en))[e] ==
              if exists f :: f in en && f.offset == e.offset && f.length == e.length then multiset(fr)[e] else 0
  {
    var keys := KeySet(en);
    var p := (e: SpellError) => ErrorKey(e) in keys;
    FilterIsSubsequence(fr, p);
    FilterMembers(fr, p);
    FilterCount(fr, p);
    forall e ensures p(e) <==> exists f :: f in en && f.offset == e.offset && f.length == e.length {
      if p(e) {
        var f :| f in en && ErrorKey(f) == ErrorKey(e);
        ErrorKeyInjective(e, f);
      }
      if exists f :: f in en && f.offset == e.offset && f.length == e.length {
        var f :| f in en && f.offset == e.offset && f.length == e.length;
        ErrorKeyInjective(e, f);
        assert ErrorKey(f) in keys;
      }
    }
  }

  function DomainFilter(errors: seq<SpellError>): seq<SpellError> {
    Filter(errors, (e: SpellError) => !IsFalsePositive(e.word, e.rule))
  }

  /** The route's answer. */
  datatype Response = BadRequest(error: string) | Report(errors: seq<SpellError>, totalErrors: nat)

  /** `POST /api/spellcheck` for a body whose `text` member may be missing. */
  function Post(text: Option<string>, service: Service): Response {
    if text.None? || text.value == "" then BadRequest("text is required")
    else
      var fr := CheckSpelling(text.value, "fr", service);
      var en := CheckSpelling(text.value, "en-US", service);
      if fr.Failed? || en.Failed? then Report([], 0)
      else
        var errors := DomainFilter(Reconcile(fr.errors, en.errors));
        Report(errors, |errors|)
  }

  /** A missing or empty text is refused; a failed check in either language
      reports no error; otherwise the report lists, in French order, exactly
      the French errors flagged at the same place in English that are not
      false positives, each as many times as the French check reports it, and
      its count is its length. */
  lemma PostOutcome(text: Option<string>, service: Service)
    ensures Post(text, service).BadRequest? <==> text.None? || text.value == ""
    ensures Post(text, service).Report? ==> Post(text, service).totalErrors == |Post(text, service).errors|
    ensures text.Some? && text.value != "" ==>
              var fr := CheckSpelling(text.value, "fr", service);
              var en := CheckSpelling(text.value, "en-US", service);
              if fr.Failed? || en.Failed? then Post(text, service) == Report([], 0)
              else
                && IsSubsequence(Post(text, service).errors, fr.errors)
                && (forall e :: e in Post(text, service).errors <==>
                     && e in fr.errors
                     && (exists f :: f in en.errors && f.offset == e.offset && f.length == e.length)
                     && !IsFalsePositive(e.word, e.rule))
                && forall e :: multiset(Post(text, service).errors)[e] ==
                     if && (exists f :: f in en.errors && f.offset == e.offset && f.length == e.length)
                        && !IsFalsePositive(e.word, e.rule)
                     then multiset(fr.errors)[e] else 0
  {
    if text.Some? && text.value != "" {
      var fr := CheckSpelling(text.value, "fr", service);
      var en := CheckSpelling(text.value, "en-US", service);
      if !fr.Failed? && !en.Failed? {
        ReportedErrors(fr.errors, en.errors);
      }
    }
  }

  /** The errors the route reports out of the two checks' lists: in French
      order, exactly the French errors flagged at the same place in English
      that are not false positives, each as many times as in the French list. */
  lemma ReportedErrors(fr: seq<SpellError>, en: seq<SpellError>)
    ensures IsSubsequence(DomainFilter(Reconcile(fr, en)), fr)
    ensures forall e :: e in DomainFilter(Reconcile(fr, en)) <==>
              && e in fr
              && (exists f :: f in en && f.offset == e.offset && f.length == e.length)
              && !IsFalsePositive(e.word, e.rule)
    ensures forall e :: multiset(DomainFilter(Reconcile(fr, en)))[e] ==
              if && (exists f :: f in en && f.offset == e.offset && f.length == e.length)
                 && !IsFalsePositive(e.word, e.rule)
              then multiset(fr)[e] else 0
  {
    var kept := Reconcile(fr, en);
    var p := (e: SpellError) => !IsFalsePositive(e.word, e.rule);
    ReconcileExact(fr, en);
    FilterMembers(kept, p);
    FilterIsSubsequence(kept, p);
    FilterCount(kept, p);
    SubsequenceTransitive(DomainFilter(kept), kept, fr);
  }
}
