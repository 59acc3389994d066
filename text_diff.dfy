/**
 * Page-by-page text comparison (`compareText`).
 *
 * The word diff itself is a parameter of the model. All that is relied on is
 * the diff's contract: no part is both an insertion and a deletion, and
 * replaying the parts gives back the two texts (the parts that are not
 * insertions spell the old text, the parts that are not deletions the new
 * one).
 */
module TextDiff {

  /** One part of `diffWords`' answer; an absent `added`/`removed` flag reads
      as false. */
  datatype DiffPart = DiffPart(value: string, added: bool, removed: bool)

  /** `diffWords(oldText, newText)`. */
  type WordDiff = (string, string) -> seq<DiffPart>

  /** The text spelled by the parts that are not insertions. */
  function OldSide(parts: seq<DiffPart>): string {
    if parts == [] then ""
    else OldSide(parts[..|parts| - 1]) + (if parts[|parts| - 1].added then "" else parts[|parts| - 1].value)
  }

  /** The text spelled by the parts that are not deletions. */
  function NewSide(parts: seq<DiffPart>): string {
    if parts == [] then ""
    else NewSide(parts[..|parts| - 1]) + (if parts[|parts| - 1].removed then "" else parts[|parts| - 1].value)
  }

  /** The parts are a diff of `a` into `b`. */
  predicate Replays(parts: seq<DiffPart>, a: string, b: string) {
    && (forall i :: 0 <= i < |parts| ==> !(parts[i].added && parts[i].removed))
    && OldSide(parts) == a && NewSide(parts) == b
  }

  /** What the word diff promises for every pair of texts. */
  ghost predicate WordDiffContract(dw: WordDiff) {
    forall a, b :: Replays(dw(a, b), a, b)
  }

  datatype ChangeType = Added | Removed | Unchanged

  /** `TextChange`. */
  datatype Change = Change(kind: ChangeType, value: string)

  /** `TextDiffPage`. */
  datatype TextPage = TextPage(pageNumber: nat, referenceText: string, newText: string, changes: seq<Change>)

  /** `TextDiffResult`. */
  datatype TextResult = TextResult(pages: seq<TextPage>, totalChanges: nat)

  /** The change a diff part becomes: an insertion is "added" whatever its
      other flag, a deletion "removed", anything else "unchanged". */
  function ToChange(part: DiffPart): (c: Change)
    ensures c.value == part.value
    ensures c.kind == Added <==> part.added
    ensures c.kind == Removed <==> !part.added && part.removed
    ensures c.kind == Unchanged <==> !part.added && !part.removed
  {
    Change(if part.added then Added else if part.removed then Removed else Unchanged, part.value)
  }

  /** `diff.map(...)`: one change per part, in order. */
  function Changes(parts: seq<DiffPart>): (cs: seq<Change>)
    ensures |cs| == |parts| && forall i :: 0 <= i < |parts| ==> cs[i] == ToChange(parts[i])
  {
    seq(|parts|, i requires 0 <= i < |parts| => ToChange(parts[i]))
  }

  /** The text spelled by the changes that are not additions. */
  function ReferenceSide(cs: seq<Change>): string {
    if cs == [] then ""
    else ReferenceSide(cs[..|cs| - 1]) + (if cs[|cs| - 1].kind == Added then "" else cs[|cs| - 1].value)
  }

  /** The text spelled by the changes that are not removals. */
  function RevisedSide(cs: seq<Change>): string {
    if cs == [] then ""
    else RevisedSide(cs[..|cs| - 1]) + (if cs[|cs| - 1].kind == Removed then "" else cs[|cs| - 1].value)
  }

  /** `changes.filter((c) => c.type !== "unchanged").length`. */
  function CountChanges(cs: seq<Change>): nat {
    if cs == [] then 0
    else CountChanges(cs[..|cs| - 1]) + (if cs[|cs| - 1].kind == Unchanged then 0 else 1)
  }

  /** The count is at most the number of changes, and zero exactly when every
      change is "unchanged". */
  lemma {:induction false} CountChangesZero(cs: seq<Change>)
    ensures CountChanges(cs) <= |cs|
    ensures CountChanges(cs) == 0 <==> forall i :: 0 <= i < |cs| ==> cs[i].kind == Unchanged
  {
    if cs != [] {
      var init := cs[..|cs| - 1];
      CountChangesZero(init);
      assert forall i :: 0 <= i < |init| ==> init[i] == cs[i];
    }
  }

  /** When nothing changed, both replays spell the same text. */
  lemma {:induction false} UnchangedSidesAgree(cs: seq<Change>)
    requires forall i :: 0 <= i < |cs| ==> cs[i].kind == Unchanged
    ensures ReferenceSide(cs) == RevisedSide(cs)
  {
    if cs != [] {
      UnchangedSidesAgree(cs[..|cs| - 1]);
    }
  }

  /** Mapping parts to changes preserves both replays, provided no part is
      flagged both ways. */
  lemma {:induction false} ChangesReplay(parts: seq<DiffPart>)
    requires forall i :: 0 <= i < |parts| ==> !(parts[i].added && parts[i].removed)
    ensures ReferenceSide(Changes(parts)) == OldSide(parts)
    ensures RevisedSide(Changes(parts)) == NewSide(parts)
  {
    if parts != [] {
      var init := parts[..|parts| - 1];
      ChangesReplay(init);
      assert Changes(parts)[..|parts| - 1] == Changes(init);
    }
  }

  /** `refTexts[i] || ""`: a page missing on one side reads as empty. */
  function TextAt(texts: seq<string>, i: nat): (t: string)
    ensures i < |texts| ==> t == texts[i]
    ensures i >= |texts| ==> t == ""
  {
    if i < |texts| then texts[i] else ""
  }

  function Max(a: nat, b: nat): nat {
    if a >= b then a else b
  }

  /** One iteration of the comparison loop. */
  function ComparePageText(refTexts: seq<string>, newTexts: seq<string>, i: nat, dw: WordDiff): TextPage {
    var refText := TextAt(refTexts, i);
    var newText := TextAt(newTexts, i);
    TextPage(i + 1, refText, newText, Changes(dw(refText, newText)))
  }

  /** Every compared page replays its two texts; with no change counted on
      it, the two texts are equal. */
  lemma ComparedPageReplays(refTexts: seq<string>, newTexts: seq<string>, i: nat, dw: WordDiff)
    requires WordDiffContract(dw)
    ensures var p := ComparePageText(refTexts, newTexts, i, dw);
      && ReferenceSide(p.changes) == p.referenceText
      && RevisedSide(p.changes) == p.newText
      && (CountChanges(p.changes) == 0 ==> p.referenceText == p.newText)
  {
    var p := ComparePageText(refTexts, newTexts, i, dw);
    var parts := dw(p.referenceText, p.newText);
    assert Replays(parts, p.referenceText, p.newText);
    ChangesReplay(parts);
    CountChangesZero(p.changes);
    if CountChanges(p.changes) == 0 {
      UnchangedSidesAgree(p.changes);
    }
  }

  function SumChanges(pages: seq<TextPage>): nat {
    if pages == [] then 0 else SumChanges(pages[..|pages| - 1]) + CountChanges(pages[|pages| - 1].changes)
  }

  /** The total is zero exactly when no page counts a change. */
  lemma {:induction false} SumChangesZero(pages: seq<TextPage>)
    ensures SumChanges(pages) == 0 <==> forall i :: 0 <= i < |pages| ==> CountChanges(pages[i].changes) == 0
  {
    if pages != [] {
      var init := pages[..|pages| - 1];
      SumChangesZero(init);
      assert forall i :: 0 <= i < |init| ==> init[i] == pages[i];
    }
  }

  /** `compareText`: one page per index up to the longer of the two lists. */
  method CompareText(refTexts: seq<string>, newTexts: seq<string>, dw: WordDiff) returns (res: TextResult)
    ensures |res.pages| == Max(|refTexts|, |newTexts|)
    ensures forall i :: 0 <= i < |res.pages| ==> res.pages[i] == ComparePageText(refTexts, newTexts, i, dw)
    ensures res.totalChanges == SumChanges(res.pages)
  {
    var pageCount := Max(|refTexts|, |newTexts|);
    var pages: seq<TextPage> := [];
    var totalChanges: nat := 0;
    for i := 0 to pageCount
      invariant |pages| == i
      invariant forall j :: 0 <= j < i ==> pages[j] == ComparePageText(refTexts, newTexts, j, dw)
      invariant totalChanges == SumChanges(pages)
    {
      var refText := if i < |refTexts| then refTexts[i] else "";
      var newText := if i < |newTexts| then newTexts[i] else "";
      var diff := dw(refText, newText);
      var changes := Changes(diff);
      var changesCount := CountChanges(changes);
      totalChanges := totalChanges + changesCount;
      var page := TextPage(i + 1, refText, newText, changes);
      assert (pages + [page])[..i] == pages;
      pages := pages + [page];
    }
    res := TextResult(pages, totalChanges);
  }

  /** What a comparison promises: page `i` is number `i + 1` and holds the two
      texts at index `i` (empty where a side has no such page), its changes
      replay both texts, and a total of zero means every page pair is equal. */
  lemma CompareTextFacts(refTexts: seq<string>, newTexts: seq<string>, dw: WordDiff, res: TextResult)
    requires WordDiffContract(dw)
    requires |res.pages| == Max(|refTexts|, |newTexts|)
    requires forall i :: 0 <= i < |res.pages| ==> res.pages[i] == ComparePageText(refTexts, newTexts, i, dw)
    requires res.totalChanges == SumChanges(res.pages)
    ensures forall i :: 0 <= i < |res.pages| ==>
              && res.pages[i].pageNumber == i + 1
              && res.pages[i].referenceText == TextAt(refTexts, i)
              && res.pages[i].newText == TextAt(newTexts, i)
              && ReferenceSide(res.pages[i].changes) == res.pages[i].referenceText
              && RevisedSide(res.pages[i].changes) == res.pages[i].newText
    ensures res.totalChanges == 0 ==>
              forall i :: 0 <= i < |res.pages| ==> res.pages[i].referenceText == res.pages[i].newText
  {
    forall i | 0 <= i < |res.pages|
      ensures ReferenceSide(res.pages[i].changes) == res.pages[i].referenceText
      ensures RevisedSide(res.pages[i].changes) == res.pages[i].newText
      ensures CountChanges(res.pages[i].changes) == 0 ==> res.pages[i].referenceText == res.pages[i].newText
    {
      ComparedPageReplays(refTexts, newTexts, i, dw);
    }
    SumChangesZero(res.pages);
  }
}
