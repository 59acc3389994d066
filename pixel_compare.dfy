/**
 * Pixel comparison of two rendered documents, page by page
 * (`comparePages` and `cropImageData`).
 *
 * An image is an RGBA raster: four bytes per pixel, rows top to bottom, pixels
 * left to right. The pixel matcher is a parameter of the model; all that is
 * relied on is its own contract (it reports at most one difference per pixel
 * and fills a diff raster of the comparison's size).
 */
module PixelCompare {
  import opened Wrappers

  /** `ImageData`. */
  datatype Image = Image(width: nat, height: nat, data: seq<byte>)

  /** A raster a canvas can produce: at least one pixel wide and high (a zero
      extent makes `getImageData` throw) and four bytes per pixel. */
  predicate WellFormed(img: Image) {
    img.width >= 1 && img.height >= 1 && |img.data| == 4 * img.width * img.height
  }

  /** The offset of channel `c` of pixel (`x`, `y`) in a raster `w` pixels wide. */
  function Offset(w: nat, x: nat, y: nat, c: nat): nat {
    (y * w + x) * 4 + c
  }

  /** The pixel-matcher's verdict: how many pixels differ, and the diff raster
      it writes into the output buffer. */
  datatype MatchOutput = MatchOutput(diffPixels: nat, mask: seq<byte>)

  /** `pixelmatch(ref, new, out, width, height, options)`. */
  type Matcher = (seq<byte>, seq<byte>, nat, nat) -> MatchOutput

  /** What the matcher promises: no more differing pixels than pixels, and an
      output raster of the size of the buffer it was given. */
  ghost predicate MatcherContract(pm: Matcher) {
    forall a: seq<byte>, b: seq<byte>, w: nat, h: nat :: pm(a, b, w, h).diffPixels <= w * h && |pm(a, b, w, h).mask| == 4 * w * h
  }

  lemma MulMono(a: nat, b: nat, c: nat)
    requires a <= b
    ensures a * c <= b * c
  {
  }

  /** The position in the source raster that byte `k` of a `tw`-wide crop copies. */
  function SourceIndex(sw: nat, tw: nat, k: nat): nat
    requires tw >= 1
  {
    Offset(sw, (k / 4) % tw, (k / 4) / tw, k % 4)
  }

  /** Byte `k` of a `tw` x `th` crop lies inside a `sw` x `sh` source raster. */
  lemma SourceIndexInRange(sw: nat, sh: nat, tw: nat, th: nat, k: nat)
    requires 1 <= tw <= sw && 1 <= th <= sh && k < 4 * tw * th
    ensures SourceIndex(sw, tw, k) < 4 * sw * sh
  {
    var p := k / 4;
    var x, y := p % tw, p / tw;
    assert p < tw * th;
    assert p == y * tw + x;
    if y >= th {
      MulMono(th, y, tw);
      assert false;
    }
    assert y + 1 <= th;
    MulMono(y + 1, th, sw);
    MulMono(th, sh, sw);
    assert y * sw + x < (y + 1) * sw;
    assert y * sw + x + 1 <= sh * sw;
    assert SourceIndex(sw, tw, k) == (y * sw + x) * 4 + k % 4;
  }

  /** The crop of the top-left `tw` x `th` corner that a canvas returns from
      `putImageData(source)` followed by `getImageData(0, 0, tw, th)`; the
      source itself when the sizes already agree. */
  function CropSpec(src: Image, tw: nat, th: nat): (r: Image)
    requires WellFormed(src) && 1 <= tw <= src.width && 1 <= th <= src.height
  {
    if src.width == tw && src.height == th then src
    else
      Image(tw, th, seq(4 * tw * th, k requires 0 <= k < 4 * tw * th =>
        SourceIndexInRange(src.width, src.height, tw, th, k);
        src.data[SourceIndex(src.width, tw, k)]))
  }

  /** Integer division recovers quotient and remainder. */
  lemma DivModUnique(n: nat, d: nat, q: nat, r: nat)
    requires 0 <= r < d && n == q * d + r
    ensures n / d == q && n % d == r
  {
    var q', r' := n / d, n % d;
    assert n == q' * d + r';
    if q' < q {
      MulMono(q' + 1, q, d);
      assert false;
    } else if q < q' {
      MulMono(q + 1, q', d);
      assert false;
    }
  }

  /** The crop is well formed and every pixel of it is the source's pixel at
      the same coordinates. */
  lemma CropPixels(src: Image, tw: nat, th: nat)
    requires WellFormed(src) && 1 <= tw <= src.width && 1 <= th <= src.height
    ensures WellFormed(CropSpec(src, tw, th))
    ensures CropSpec(src, tw, th).width == tw && CropSpec(src, tw, th).height == th
    ensures forall x: nat, y: nat, c: nat | x < tw && y < th && c < 4 ::
              Offset(tw, x, y, c) < 4 * tw * th && Offset(src.width, x, y, c) < |src.data|
              && CropSpec(src, tw, th).data[Offset(tw, x, y, c)] == src.data[Offset(src.width, x, y, c)]
  {
    var r := CropSpec(src, tw, th);
    forall x: nat, y: nat, c: nat | x < tw && y < th && c < 4
      ensures Offset(tw, x, y, c) < 4 * tw * th && Offset(src.width, x, y, c) < |src.data|
      ensures r.data[Offset(tw, x, y, c)] == src.data[Offset(src.width, x, y, c)]
    {
      var k := Offset(tw, x, y, c);
      DivModUnique(k, 4, y * tw + x, c);
      DivModUnique(y * tw + x, tw, y, x);
      MulMono(y + 1, th, tw);
      assert k < 4 * tw * th;
      SourceIndexInRange(src.width, src.height, tw, th, k);
      assert SourceIndex(src.width, tw, k) == Offset(src.width, x, y, c);
    }
  }

  /** Cropping to the source's own size returns the source. */
  lemma CropSameSize(src: Image)
    requires WellFormed(src)
    ensures CropSpec(src, src.width, src.height) == src
  {
  }

  /** `cropImageData`: copies the top-left corner of the source into a fresh
      buffer, byte by byte. */
  method Crop(src: Image, tw: nat, th: nat) returns (r: Image)
    requires WellFormed(src) && 1 <= tw <= src.width && 1 <= th <= src.height
    ensures r == CropSpec(src, tw, th)
  {
    if src.width == tw && src.height == th {
      return src;
    }
    var n := 4 * tw * th;
    var buf := new byte[n];
    for k := 0 to n
      invariant forall j :: 0 <= j < k ==> SourceIndex(src.width, tw, j) < |src.data| && buf[j] == src.data[SourceIndex(src.width, tw, j)]
    {
      SourceIndexInRange(src.width, src.height, tw, th, k);
      buf[k] := src.data[SourceIndex(src.width, tw, k)];
    }
    r := Image(tw, th, buf[..]);
  }

  /** `((pixels - diff) / pixels) * 100`. */
  function Similarity(pixels: nat, diff: nat): real
    requires pixels > 0
  {
    ((pixels - diff) as real / pixels as real) * 100.0
  }

  /** The similarity of a comparison with no differing pixel is 100, one with
      every pixel differing 0, and anything in between lies in between. */
  lemma SimilarityRange(pixels: nat, diff: nat)
    requires 0 < pixels && diff <= pixels
    ensures 0.0 <= Similarity(pixels, diff) <= 100.0
    ensures Similarity(pixels, diff) == 100.0 <==> diff == 0
    ensures Similarity(pixels, diff) == 0.0 <==> diff == pixels
  {
    var p := pixels as real;
    var q := (pixels - diff) as real;
    assert q <= p;
    assert Similarity(pixels, diff) * p == q * 100.0;
  }

  /** More differing pixels never raise the similarity. */
  lemma SimilarityAntitone(pixels: nat, d1: nat, d2: nat)
    requires 0 < pixels && d1 <= d2
    ensures Similarity(pixels, d2) <= Similarity(pixels, d1)
  {
    var p := pixels as real;
    assert Similarity(pixels, d1) * p == (pixels - d1) as real * 100.0;
    assert Similarity(pixels, d2) * p == (pixels - d2) as real * 100.0;
  }

  /** `PixelDiffPage`. */
  datatype PageDiff = PageDiff(
    pageNumber: nat,
    referenceImage: Image,
    newImage: Image,
    diffImage: Image,
    diffPixels: nat,
    totalPixels: nat,
    similarityPercent: real,
    width: nat,
    height: nat)

  /** `PixelDiffResult`. */
  datatype DiffResult = DiffResult(pages: seq<PageDiff>, totalDiffPixels: nat, totalPixels: nat, similarityPercent: real)

  function Min(a: nat, b: nat): nat {
    if a <= b then a else b
  }

  /** One iteration of the comparison loop: both pages cropped to the smaller
      extent in each direction, then matched. */
  function ComparePage(ref: Image, nw: Image, number: nat, pm: Matcher): (p: PageDiff)
    requires WellFormed(ref) && WellFormed(nw)
  {
    var w := Min(ref.width, nw.width);
    var h := Min(ref.height, nw.height);
    var refData := CropSpec(ref, w, h);
    var newData := CropSpec(nw, w, h);
    var out := pm(refData.data, newData.data, w, h);
    PageDiff(number, refData, newData, Image(w, h, out.mask), out.diffPixels, w * h,
             Similarity(w * h, out.diffPixels), w, h)
  }

  /** What a compared page carries: its number, the smaller extent, two crops
      of that extent that agree with their pages pixel for pixel, a diff image
      of that extent, and a difference count and similarity within range. */
  lemma ComparePageFacts(ref: Image, nw: Image, number: nat, pm: Matcher)
    requires WellFormed(ref) && WellFormed(nw) && MatcherContract(pm)
    ensures var p := ComparePage(ref, nw, number, pm);
      && p.pageNumber == number
      && p.width == Min(ref.width, nw.width) && p.height == Min(ref.height, nw.height)
      && p.width <= ref.width && p.width <= nw.width && p.height <= ref.height && p.height <= nw.height
      && p.referenceImage == CropSpec(ref, p.width, p.height)
      && p.newImage == CropSpec(nw, p.width, p.height)
      && WellFormed(p.referenceImage) && WellFormed(p.newImage) && WellFormed(p.diffImage)
      && p.diffImage.width == p.width && p.diffImage.height == p.height
      && p.totalPixels == p.width * p.height > 0
      && p.diffPixels <= p.totalPixels
      && 0.0 <= p.similarityPercent <= 100.0
      && (p.similarityPercent == 100.0 <==> p.diffPixels == 0)
  {
    var p := ComparePage(ref, nw, number, pm);
    CropPixels(ref, p.width, p.height);
    CropPixels(nw, p.width, p.height);
    SimilarityRange(p.totalPixels, p.diffPixels);
  }

  /** Pages of the same size are compared as they are. */
  lemma ComparePageSameSize(ref: Image, nw: Image, number: nat, pm: Matcher)
    requires WellFormed(ref) && WellFormed(nw)
    requires ref.width == nw.width && ref.height == nw.height
    ensures ComparePage(ref, nw, number, pm).referenceImage == ref
    ensures ComparePage(ref, nw, number, pm).newImage == nw
  {
  }

  function SumPixels(pages: seq<PageDiff>): nat {
    if pages == [] then 0 else SumPixels(pages[..|pages| - 1]) + pages[|pages| - 1].totalPixels
  }

  function SumDiff(pages: seq<PageDiff>): nat {
    if pages == [] then 0 else SumDiff(pages[..|pages| - 1]) + pages[|pages| - 1].diffPixels
  }

  /** The document-wide similarity: 100 when nothing was compared. */
  function DocumentSimilarity(total: nat, diff: nat): real {
    if total > 0 then Similarity(total, diff) else 100.0
  }

  /** `comparePages`: compares the first `min(|refPages|, |newPages|)` pages
      pairwise and accumulates the totals. */
  method ComparePages(refPages: seq<Image>, newPages: seq<Image>, pm: Matcher) returns (res: DiffResult)
    requires forall i :: 0 <= i < |refPages| ==> WellFormed(refPages[i])
    requires forall i :: 0 <= i < |newPages| ==> WellFormed(newPages[i])
    ensures |res.pages| == Min(|refPages|, |newPages|)
    ensures forall i :: 0 <= i < |res.pages| ==> res.pages[i] == ComparePage(refPages[i], newPages[i], i + 1, pm)
    ensures res.totalPixels == SumPixels(res.pages) && res.totalDiffPixels == SumDiff(res.pages)
    ensures res.similarityPercent == DocumentSimilarity(res.totalPixels, res.totalDiffPixels)
  {
    var pageCount := Min(|refPages|, |newPages|);
    var pages: seq<PageDiff> := [];
    var totalDiffPixels: nat := 0;
    var totalPixels: nat := 0;
    for i := 0 to pageCount
      invariant |pages| == i
      invariant forall j :: 0 <= j < i ==> pages[j] == ComparePage(refPages[j], newPages[j], j + 1, pm)
      invariant totalPixels == SumPixels(pages) && totalDiffPixels == SumDiff(pages)
    {
      var ref, nw := refPages[i], newPages[i];
      var width := Min(ref.width, nw.width);
      var height := Min(ref.height, nw.height);
      var refData := Crop(ref, width, height);
      var newData := Crop(nw, width, height);
      var out := pm(refData.data, newData.data, width, height);
      var pixCount := width * height;
      totalDiffPixels := totalDiffPixels + out.diffPixels;
      totalPixels := totalPixels + pixCount;
      var page := PageDiff(i + 1, refData, newData, Image(width, height, out.mask), out.diffPixels,
                           pixCount, Similarity(pixCount, out.diffPixels), width, height);
      assert (pages + [page])[..i] == pages;
      pages := pages + [page];
    }
    var similarity := if totalPixels > 0 then Similarity(totalPixels, totalDiffPixels) else 100.0;
    res := DiffResult(pages, totalDiffPixels, totalPixels, similarity);
  }

  /** The pages each count at least one pixel and no more differences than
      pixels, so the totals keep the same bound. */
  lemma {:induction false} TotalsBounded(pages: seq<PageDiff>)
    requires forall i :: 0 <= i < |pages| ==> pages[i].diffPixels <= pages[i].totalPixels && pages[i].totalPixels > 0
    ensures SumDiff(pages) <= SumPixels(pages)
    ensures SumPixels(pages) >= |pages|
  {
    if pages != [] {
      TotalsBounded(pages[..|pages| - 1]);
    }
  }

  /** The document similarity of a comparison lies in [0, 100]; it is 100
      exactly when no pixel differs (in particular when no page was compared)
      and 0 exactly when some page was compared and every compared pixel
      differs. */
  lemma ResultSimilarity(refPages: seq<Image>, newPages: seq<Image>, pm: Matcher, res: DiffResult)
    requires forall i :: 0 <= i < |refPages| ==> WellFormed(refPages[i])
    requires forall i :: 0 <= i < |newPages| ==> WellFormed(newPages[i])
    requires MatcherContract(pm)
    requires |res.pages| == Min(|refPages|, |newPages|)
    requires forall i :: 0 <= i < |res.pages| ==> res.pages[i] == ComparePage(refPages[i], newPages[i], i + 1, pm)
    requires res.totalPixels == SumPixels(res.pages) && res.totalDiffPixels == SumDiff(res.pages)
    requires res.similarityPercent == DocumentSimilarity(res.totalPixels, res.totalDiffPixels)
    ensures res.totalDiffPixels <= res.totalPixels
    ensures res.totalPixels > 0 <==> res.pages != []
    ensures 0.0 <= res.similarityPercent <= 100.0
    ensures res.similarityPercent == 100.0 <==> res.totalDiffPixels == 0
    ensures res.similarityPercent == 0.0 <==> res.pages != [] && res.totalDiffPixels == res.totalPixels
  {
    forall i | 0 <= i < |res.pages|
      ensures res.pages[i].diffPixels <= res.pages[i].totalPixels && res.pages[i].totalPixels > 0
    {
      ComparePageFacts(refPages[i], newPages[i], i + 1, pm);
    }
    TotalsBounded(res.pages);
    if res.pages == [] {
      assert res.totalPixels == 0;
    } else {
      SimilarityRange(res.totalPixels, res.totalDiffPixels);
    }
  }
}
