/**
 * The computations of the results page: the analysis it runs on the two
 * rendered documents, the text it sends to the spell-check route, how it
 * reads that route's answer, the score it shows and the gate on promotion.
 */
module ResultsPage {
  import opened Wrappers
  import opened JsString
  import opened PixelCompare
  import opened TextDiff
  import opened Spellcheck
  import opened SpellcheckRoute
  import opened BlobStorage

  /** A page as the compare page stores it for this one: its number, its
      cleaned text and its rendered image. */
  datatype StoredPage = StoredPage(pageNumber: nat, text: string, image: Image)

  function Texts(pages: seq<StoredPage>): (r: seq<string>)
    ensures |r| == |pages| && forall i :: 0 <= i < |pages| ==> r[i] == pages[i].text
  {
    seq(|pages|, i requires 0 <= i < |pages| => pages[i].text)
  }

  function Images(pages: seq<StoredPage>): (r: seq<Image>)
    ensures |r| == |pages| && forall i :: 0 <= i < |pages| ==> r[i] == pages[i].image
  {
    seq(|pages|, i requires 0 <= i < |pages| => pages[i].image)
  }

  /** The pixel comparison, the text comparison and the overall score of
      `runAnalysis`: the score is the document-level pixel similarity, with
      nothing from the text or the spelling blended in. */
  method Analyse(refPages: seq<StoredPage>, newPages: seq<StoredPage>, pm: Matcher, dw: WordDiff)
    returns (pixels: DiffResult, text: TextResult, score: real)
    requires forall i :: 0 <= i < |refPages| ==> WellFormed(refPages[i].image)
    requires forall i :: 0 <= i < |newPages| ==> WellFormed(newPages[i].image)
    requires MatcherContract(pm)
    ensures |pixels.pages| == Min(|refPages|, |newPages|)
    ensures forall i :: 0 <= i < |pixels.pages| ==>
              pixels.pages[i] == ComparePage(refPages[i].image, newPages[i].image, i + 1, pm)
    ensures pixels.totalPixels == SumPixels(pixels.pages) && pixels.totalDiffPixels == SumDiff(pixels.pages)
    ensures |text.pages| == Max(|refPages|, |newPages|)
    ensures forall i :: 0 <= i < |text.pages| ==>
              text.pages[i] == ComparePageText(Texts(refPages), Texts(newPages), i, dw)
    ensures text.totalChanges == SumChanges(text.pages)
    ensures score == pixels.similarityPercent
    ensures 0.0 <= score <= 100.0
    ensures score == 100.0 <==> pixels.totalDiffPixels == 0
  {
    var refImages := Images(refPages);
    var newImages := Images(newPages);
    pixels := ComparePages(refImages, newImages, pm);
    ResultSimilarity(refImages, newImages, pm, pixels);
    text := CompareText(Texts(refPages), Texts(newPages), dw);
    score := pixels.similarityPercent;
  }

  /** The text sent to the spell-check route: the new pages' texts, in page
      order, separated by a blank line. */
  function SpellcheckText(newPages: seq<StoredPage>): string {
    Join(Texts(newPages), "\n\n")
  }

  /** Every page's text occurs in the spell-check text at its offset, and a
      blank line separates it from the next page's. */
  lemma SpellcheckTextHoldsPages(newPages: seq<StoredPage>, k: nat)
    requires k < |newPages|
    ensures var o := JoinOffset(Texts(newPages), "\n\n", k);
      && o + |newPages[k].text| <= |SpellcheckText(newPages)|
      && SpellcheckText(newPages)[o..o + |newPages[k].text|] == newPages[k].text
      && (k + 1 < |newPages| ==>
            && o + |newPages[k].text| + 2 <= |SpellcheckText(newPages)|
            && SpellcheckText(newPages)[o + |newPages[k].text|..o + |newPages[k].text| + 2] == "\n\n"
            && JoinOffset(Texts(newPages), "\n\n", k + 1) == o + |newPages[k].text| + 2)
  {
    JoinPartAt(Texts(newPages), "\n\n", k);
    if k + 1 < |newPages| {
      JoinSeparatorAfter(Texts(newPages), "\n\n", k);
    }
  }

  /** What the page receives from `fetch("/api/spellcheck")`: the request
      throws, or the route answers. */
  datatype SpellFetch = Threw | Answered(response: SpellcheckRoute.Response)

  datatype SpellReport = SpellReport(errors: seq<SpellError>, totalErrors: nat)

  /** The spell-check report the page shows: an empty report when the
      request throws, none when the route refuses the request, the route's
      report otherwise. */
  function ShownSpellcheck(f: SpellFetch): (r: Option<SpellReport>)
    ensures f.Threw? ==> r == Some(SpellReport([], 0))
    ensures f.Answered? ==> (r.None? <==> f.response.BadRequest?)
    ensures f.Answered? && f.response.Report? ==> r == Some(SpellReport(f.response.errors, f.response.totalErrors))
  {
    match f
    case Threw => Some(SpellReport([], 0))
    case Answered(BadRequest(_)) => None
    case Answered(Report(errors, total)) => Some(SpellReport(errors, total))
  }

  /** Sent to the route, the new document's text yields a report whose count
      is its number of errors, unless the text is empty: then the route
      refuses it and the page shows no report at all. */
  lemma SpellcheckOfDocument(newPages: seq<StoredPage>, service: Service)
    ensures var r := ShownSpellcheck(Answered(SpellcheckRoute.Post(Some(SpellcheckText(newPages)), service)));
      && (r.None? <==> SpellcheckText(newPages) == "")
      && (r.Some? ==> r.value.totalErrors == |r.value.errors|)
  {
    PostOutcome(Some(SpellcheckText(newPages)), service);
  }

  /** A new document without pages, or whose single page has no text, gets
      no spell-check report. */
  lemma EmptyDocumentHasNoReport(newPages: seq<StoredPage>, service: Service)
    requires newPages == [] || (|newPages| == 1 && newPages[0].text == "")
    ensures ShownSpellcheck(Answered(SpellcheckRoute.Post(Some(SpellcheckText(newPages)), service))).None?
  {
    assert SpellcheckText(newPages) == "";
    SpellcheckOfDocument(newPages, service);
  }

  datatype ScoreBand = Green | Orange | Red

  /** `scoreColor`: green from 95, orange from 80, red below. */
  function ScoreColor(score: real): (b: ScoreBand)
    ensures b == Green <==> score >= 95.0
    ensures b == Orange <==> 80.0 <= score < 95.0
    ensures b == Red <==> score < 80.0
  {
    if score >= 95.0 then Green
    else if score >= 80.0 then Orange
    else Red
  }

  function BandRank(b: ScoreBand): nat {
    match b
    case Red => 0
    case Orange => 1
    case Green => 2
  }

  /** A higher score never gets a worse band. */
  lemma ScoreColorMonotone(s: real, t: real)
    requires s <= t
    ensures BandRank(ScoreColor(s)) <= BandRank(ScoreColor(t))
  {
  }

  /** Two documents whose common pages do not differ by one pixel score
      green; so do two documents that share no page, whose similarity is
      taken as 100. */
  lemma IdenticalPagesScoreGreen(refPages: seq<StoredPage>, newPages: seq<StoredPage>, pm: Matcher,
                                 pixels: DiffResult)
    requires forall i :: 0 <= i < |refPages| ==> WellFormed(refPages[i].image)
    requires forall i :: 0 <= i < |newPages| ==> WellFormed(newPages[i].image)
    requires MatcherContract(pm)
    requires |pixels.pages| == Min(|refPages|, |newPages|)
    requires forall i :: 0 <= i < |pixels.pages| ==>
               pixels.pages[i] == ComparePage(refPages[i].image, newPages[i].image, i + 1, pm)
    requires pixels.totalPixels == SumPixels(pixels.pages) && pixels.totalDiffPixels == SumDiff(pixels.pages)
    requires pixels.similarityPercent == DocumentSimilarity(pixels.totalPixels, pixels.totalDiffPixels)
    requires forall i :: 0 <= i < |pixels.pages| ==> pixels.pages[i].diffPixels == 0
    ensures ScoreColor(pixels.similarityPercent) == Green
  {
    NoPageDiffNoDiff(pixels.pages);
    ResultSimilarity(Images(refPages), Images(newPages), pm, pixels);
  }

  lemma {:induction false} NoPageDiffNoDiff(pages: seq<PageDiff>)
    requires forall i :: 0 <= i < |pages| ==> pages[i].diffPixels == 0
    ensures SumDiff(pages) == 0
  {
    if pages != [] {
      NoPageDiffNoDiff(pages[..|pages| - 1]);
    }
  }

  /** `canValidate`: the new version may be promoted exactly when the
      signature detection found a digital or a handwritten signature; no
      detection result forbids it. */
  function CanValidate(signature: Option<SignatureStatus>): (ok: bool)
    ensures ok <==> signature == Some(SignedDigital) || signature == Some(SignedHandwritten)
    ensures signature.None? ==> !ok
  {
    match signature
    case Some(SignedDigital) => true
    case Some(SignedHandwritten) => true
    case _ => false
  }
}
