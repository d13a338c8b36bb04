/**
 * `generatePDF`: the single-slot cache of the generated PDF, the SVG and PNG
 * paths that append one page per page URL, serialization and the save.
 *
 * The PDF document builder, the SVG embedder, the network and the canvas are
 * foreign code: a document is a page size and a sequence of page records,
 * and fetching an SVG, rasterizing a PNG and serializing the document are
 * function parameters.
 */
module PdfGeneration {
  import opened Wrappers
  import opened ImageUrls

  /** The root element of a fetched SVG document */
  datatype SvgElement = SvgElement(markup: string)

  /** One page of the document */
  datatype PdfPage =
    | VectorPage(svg: SvgElement)                         // an SVG drawn at the origin, stretched to the page
    | RasterPage(image: string, width: nat, height: nat)  // a new page showing a PNG data URL at the given size

  /** The document's page size: the builder's default, or an explicit `[width, height]` */
  datatype PageSize = DefaultSize | Size(width: nat, height: nat)

  datatype PdfDocument = PdfDocument(size: PageSize, pages: seq<PdfPage>)

  /** The serialized document */
  datatype Blob = Blob(bytes: seq<bv8>)

  /** One call of the browser's save trigger */
  datatype SaveEvent = SaveEvent(blob: Blob, fileName: string)

  /**
   * How acquiring one page ends: with its payload, with an exception (a
   * fetch without an XML response; a canvas that yields no 2D context or
   * refuses to export), or never (a blocking fetch that never returns; an
   * image whose `onload` never fires).
   */
  datatype Load<+T> = Loaded(value: T) | Fails | Hangs

  /**
   * How building the pages ends: with a document, with an exception thrown
   * (a failed acquisition, or no document because the format is neither
   * `svg` nor `png`), or never.
   */
  datatype Build = Built(doc: PdfDocument) | Threw | NeverSettles

  /** How the promise returned by `generatePDF` settles */
  datatype Outcome = Resolved | Rejected | Pending

  /** The saved file's name: `name` and `.pdf`, where an absent `name` prints as `undefined` */
  function PdfFileName(name: Option<string>): (f: string)
    ensures |f| >= 4 && f[|f| - 4..] == ".pdf"
    ensures name.Some? ==> f[..|f| - 4] == name.value
    ensures name.None? ==> f == "undefined.pdf"
  {
    name.GetOr("undefined") + ".pdf"
  }

  // ---------------------------------------------------------------------
  // Acquiring the pages

  /** Every page URL yields a payload */
  predicate AllAcquired<T>(urls: seq<string>, acquire: string -> Load<T>) {
    forall i :: 0 <= i < |urls| ==> acquire(urls[i]).Loaded?
  }

  /** Some page's acquisition throws */
  predicate AnyFails<T>(urls: seq<string>, acquire: string -> Load<T>) {
    exists i :: 0 <= i < |urls| && acquire(urls[i]).Fails?
  }

  /** The payloads of all pages, one after the other in page order */
  function Acquired<T>(urls: seq<string>, acquire: string -> Load<T>): seq<T>
    requires AllAcquired(urls, acquire)
  {
    if urls == [] then []
    else
      var init := urls[..|urls| - 1];
      assert forall i :: 0 <= i < |init| ==> init[i] == urls[i];
      Acquired(init, acquire) + [acquire(urls[|urls| - 1]).value]
  }

  /** Payload `i` is the one acquired from page URL `i` */
  lemma {:induction false} AcquiredInOrder<T>(urls: seq<string>, acquire: string -> Load<T>)
    requires AllAcquired(urls, acquire)
    ensures |Acquired(urls, acquire)| == |urls|
    ensures forall i :: 0 <= i < |urls| ==> Acquired(urls, acquire)[i] == acquire(urls[i]).value
    decreases |urls|
  {
    if urls != [] {
      var init := urls[..|urls| - 1];
      assert forall i :: 0 <= i < |init| ==> init[i] == urls[i];
      AcquiredInOrder(init, acquire);
    }
  }

  /** Acquiring one more page appends its payload */
  lemma AcquiredSnoc<T>(urls: seq<string>, acquire: string -> Load<T>, i: nat)
    requires i < |urls| && AllAcquired(urls[..i], acquire) && acquire(urls[i]).Loaded?
    ensures AllAcquired(urls[..i + 1], acquire)
    ensures Acquired(urls[..i + 1], acquire) == Acquired(urls[..i], acquire) + [acquire(urls[i]).value]
  {
    assert urls[..i + 1][..i] == urls[..i];
    assert forall k :: 0 <= k < i ==> urls[..i + 1][k] == urls[..i][k];
  }

  /** How many page URLs come before the first whose acquisition does not yield a payload */
  function FirstMissing<T>(urls: seq<string>, acquire: string -> Load<T>): (n: nat)
    ensures n <= |urls| && AllAcquired(urls[..n], acquire)
    ensures n < |urls| ==> !acquire(urls[n]).Loaded?
    ensures n == |urls| <==> AllAcquired(urls, acquire)
  {
    if urls == [] then 0
    else if !acquire(urls[0]).Loaded? then 0
    else
      var n := 1 + FirstMissing(urls[1..], acquire);
      assert forall i :: 0 < i < n ==> urls[..n][i] == urls[1..][..n - 1][i - 1];
      assert !AllAcquired(urls[1..], acquire) ==> !AllAcquired(urls, acquire) by {
        assert forall i :: 0 <= i < |urls| - 1 ==> urls[1..][i] == urls[i + 1];
      }
      assert urls[..|urls|] == urls;
      n
  }

  /** The first failure is where the pages before it all succeed and it does not */
  lemma FirstMissingAt<T>(urls: seq<string>, acquire: string -> Load<T>, i: nat)
    requires i < |urls| && AllAcquired(urls[..i], acquire) && !acquire(urls[i]).Loaded?
    ensures FirstMissing(urls, acquire) == i
  {
    var n := FirstMissing(urls, acquire);
    assert forall k :: 0 <= k < i ==> urls[..i][k] == urls[k];
    assert forall k :: 0 <= k < n ==> urls[..n][k] == urls[k];
  }

  /**
   * Waiting for all PNG pages at once: every acquisition starts together, and
   * those that complete do so in the order `completion` lists page indices.
   * Each result goes to the slot of its page, so the results come out in page
   * order whatever the completion order. The wait rejects as soon as an
   * acquisition that throws completes, and stays pending when none throws
   * but some never completes.
   */
  method AwaitAll<T>(urls: seq<string>, acquire: string -> Load<T>, completion: seq<nat>)
    returns (results: Load<seq<T>>)
    requires forall k :: 0 <= k < |completion| ==>
      completion[k] < |urls| && !acquire(urls[completion[k]]).Hangs?
    requires forall j :: 0 <= j < |urls| && !acquire(urls[j]).Hangs? ==> j in completion
    ensures AnyFails(urls, acquire) ==> results == Fails
    ensures !AnyFails(urls, acquire) && AllAcquired(urls, acquire) ==>
      results == Loaded(Acquired(urls, acquire))
    ensures !AnyFails(urls, acquire) && !AllAcquired(urls, acquire) ==> results == Hangs
  {
    var slots: seq<Option<T>> := seq(|urls|, _ => None);
    var k := 0;
    while k < |completion|
      invariant 0 <= k <= |completion|
      invariant |slots| == |urls|
      invariant forall m :: 0 <= m < k ==> acquire(urls[completion[m]]).Loaded?
      invariant forall j :: 0 <= j < |urls| ==>
        slots[j] == if j in completion[..k] then Some(acquire(urls[j]).value) else None
    {
      var j := completion[k];
      var payload := acquire(urls[j]);
      if payload.Fails? {
        return Fails;
      }
      slots := slots[j := Some(payload.value)];
      assert completion[..k + 1] == completion[..k] + [j];
      k := k + 1;
    }
    assert completion[..k] == completion;
    assert !AnyFails(urls, acquire) by {
      forall j | 0 <= j < |urls| ensures !acquire(urls[j]).Fails? {
        if !acquire(urls[j]).Hangs? {
          var m :| 0 <= m < |completion| && completion[m] == j;
        }
      }
    }
    if forall j :: 0 <= j < |slots| ==> slots[j].Some? {
      results := Loaded(seq(|slots|, j requires 0 <= j < |slots| => slots[j].value));
      assert AllAcquired(urls, acquire) by {
        forall j | 0 <= j < |urls| ensures acquire(urls[j]).Loaded? {
          assert slots[j].Some?;
          var m :| 0 <= m < |completion| && completion[m] == j;
        }
      }
      AcquiredInOrder(urls, acquire);
      assert results.value == Acquired(urls, acquire);
    } else {
      results := Hangs;
    }
  }

  // ---------------------------------------------------------------------
  // Appending the pages

  /** The pages the SVG path appends, one per SVG root element, in order */
  function SvgPages(svgs: seq<SvgElement>): seq<PdfPage> {
    if svgs == [] then [] else SvgPages(svgs[..|svgs| - 1]) + [VectorPage(svgs[|svgs| - 1])]
  }

  /** The pages the PNG path appends, one per data URL, in order, all the same size */
  function PngPages(images: seq<string>, width: nat, height: nat): seq<PdfPage> {
    if images == [] then []
    else PngPages(images[..|images| - 1], width, height) + [RasterPage(images[|images| - 1], width, height)]
  }

  /** Embedding one more SVG element appends one page */
  lemma SvgPagesSnoc(svgs: seq<SvgElement>, svg: SvgElement)
    ensures SvgPages(svgs + [svg]) == SvgPages(svgs) + [VectorPage(svg)]
  {
    assert (svgs + [svg])[..|svgs|] == svgs;
  }

  /** Page `i` of the SVG path embeds the `i`-th SVG element */
  lemma {:induction false} SvgPagesAt(svgs: seq<SvgElement>)
    ensures |SvgPages(svgs)| == |svgs|
    ensures forall i :: 0 <= i < |svgs| ==> SvgPages(svgs)[i] == VectorPage(svgs[i])
    decreases |svgs|
  {
    if svgs != [] {
      var init := svgs[..|svgs| - 1];
      assert forall i :: 0 <= i < |init| ==> init[i] == svgs[i];
      SvgPagesAt(init);
    }
  }

  /** Page `i` of the PNG path draws the `i`-th image, at the common size */
  lemma {:induction false} PngPagesAt(images: seq<string>, width: nat, height: nat)
    ensures |PngPages(images, width, height)| == |images|
    ensures forall i :: 0 <= i < |images| ==>
      PngPages(images, width, height)[i] == RasterPage(images[i], width, height)
    decreases |images|
  {
    if images != [] {
      var init := images[..|images| - 1];
      assert forall i :: 0 <= i < |init| ==> init[i] == images[i];
      PngPagesAt(init, width, height);
    }
  }

  /** How the SVG loop ends when a fetch does not yield a document */
  function SvgFailure(urls: seq<string>, fetchSvg: string -> Load<SvgElement>): (b: Build)
    requires !AllAcquired(urls, fetchSvg)
    ensures b.Threw? <==> fetchSvg(urls[FirstMissing(urls, fetchSvg)]).Fails?
    ensures b.NeverSettles? <==> fetchSvg(urls[FirstMissing(urls, fetchSvg)]).Hangs?
  {
    if fetchSvg(urls[FirstMissing(urls, fetchSvg)]).Fails? then Threw else NeverSettles
  }

  /**
   * The SVG path: a document with the default page size; for each page URL
   * in turn, a blocking fetch and then one embedded page. A fetch without an
   * XML response throws out of the loop, and one that never returns blocks
   * it forever. `fetched` is the number of fetches issued.
   */
  method EmbedSvgPages(urls: seq<string>, fetchSvg: string -> Load<SvgElement>)
    returns (b: Build, fetched: nat)
    ensures b == if AllAcquired(urls, fetchSvg)
                 then Built(PdfDocument(DefaultSize, SvgPages(Acquired(urls, fetchSvg))))
                 else SvgFailure(urls, fetchSvg)
    ensures fetched == if AllAcquired(urls, fetchSvg) then |urls| else FirstMissing(urls, fetchSvg) + 1
    ensures b.Built? ==>
      && |b.doc.pages| == |urls|
      && forall i :: 0 <= i < |urls| ==> b.doc.pages[i] == VectorPage(fetchSvg(urls[i]).value)
  {
    var pages: seq<PdfPage> := [];
    var i := 0;
    while i < |urls|
      invariant 0 <= i <= |urls|
      invariant AllAcquired(urls[..i], fetchSvg)
      invariant pages == SvgPages(Acquired(urls[..i], fetchSvg))
    {
      var svg := fetchSvg(urls[i]);
      if !svg.Loaded? {
        FirstMissingAt(urls, fetchSvg, i);
        return if svg.Fails? then Threw else NeverSettles, i + 1;
      }
      AcquiredSnoc(urls, fetchSvg, i);
      SvgPagesSnoc(Acquired(urls[..i], fetchSvg), svg.value);
      pages := pages + [VectorPage(svg.value)];
      i := i + 1;
    }
    assert urls[..i] == urls;
    b, fetched := Built(PdfDocument(DefaultSize, pages)), |urls|;
    AcquiredInOrder(urls, fetchSvg);
    SvgPagesAt(Acquired(urls, fetchSvg));
  }

  /** The PNG path's page loop: one new page per image, each drawn at `width` x `height` */
  method EmbedPngPages(images: seq<string>, width: nat, height: nat) returns (doc: PdfDocument)
    ensures doc == PdfDocument(Size(width, height), PngPages(images, width, height))
    ensures |doc.pages| == |images|
    ensures forall i :: 0 <= i < |images| ==> doc.pages[i] == RasterPage(images[i], width, height)
  {
    var pages: seq<PdfPage> := [];
    var i := 0;
    while i < |images|
      invariant 0 <= i <= |images|
      invariant pages == PngPages(images[..i], width, height)
    {
      assert images[..i + 1][..i] == images[..i];
      pages := pages + [RasterPage(images[i], width, height)];
      i := i + 1;
    }
    assert images[..i] == images;
    doc := PdfDocument(Size(width, height), pages);
    PngPagesAt(images, width, height);
  }

  // ---------------------------------------------------------------------
  // What a generation on an empty cache produces

  /**
   * The document built on a cache miss. The format is detected again here,
   * without `main`'s `svg` default: when it is neither `svg` nor `png` no
   * document exists and asking it for its serialization throws.
   */
  function Assemble(sample: Option<SampleImage>, urls: seq<string>,
                    fetchSvg: string -> Load<SvgElement>, loadPng: string -> Load<string>): (b: Build)
    ensures DetectImgType(sample) != Some("svg") && DetectImgType(sample) != Some("png") ==> b == Threw
    ensures b.Built? ==> |b.doc.pages| == |urls|
  {
    match DetectImgType(sample)
    case None => Threw
    case Some(t) =>
      if t == "svg" then
        if AllAcquired(urls, fetchSvg)
        then
          AcquiredInOrder(urls, fetchSvg);
          SvgPagesAt(Acquired(urls, fetchSvg));
          Built(PdfDocument(DefaultSize, SvgPages(Acquired(urls, fetchSvg))))
        else SvgFailure(urls, fetchSvg)
      else if t == "png" then
        var w, h := sample.value.naturalWidth, sample.value.naturalHeight;
        if AnyFails(urls, loadPng) then Threw
        else if AllAcquired(urls, loadPng)
        then
          AcquiredInOrder(urls, loadPng);
          PngPagesAt(Acquired(urls, loadPng), w, h);
          Built(PdfDocument(Size(w, h), PngPages(Acquired(urls, loadPng), w, h)))
        else NeverSettles
      else Threw
  }

  /** The page image URLs requested on a cache miss, in the order requested */
  function Requests(sample: Option<SampleImage>, urls: seq<string>,
                    fetchSvg: string -> Load<SvgElement>): (r: seq<string>)
    ensures |r| <= |urls| && r == urls[..|r|]
  {
    match DetectImgType(sample)
    case None => []
    case Some(t) =>
      if t == "svg" then
        if AllAcquired(urls, fetchSvg) then urls else urls[..FirstMissing(urls, fetchSvg) + 1]
      else if t == "png" then urls
      else []
  }

  /**
   * On both paths a built document has one page per page URL, page `i`
   * made from URL `i`; on the PNG path every page has the sample image's
   * natural size, which is also the document's page size.
   */
  lemma AssembledPages(sample: Option<SampleImage>, urls: seq<string>,
                       fetchSvg: string -> Load<SvgElement>, loadPng: string -> Load<string>)
    requires Assemble(sample, urls, fetchSvg, loadPng).Built?
    ensures var doc := Assemble(sample, urls, fetchSvg, loadPng).doc;
      && |doc.pages| == |urls|
      && (DetectImgType(sample) == Some("svg") ==>
            doc.size == DefaultSize &&
            forall i :: 0 <= i < |urls| ==> doc.pages[i] == VectorPage(fetchSvg(urls[i]).value))
      && (DetectImgType(sample) == Some("png") ==>
            var w, h := sample.value.naturalWidth, sample.value.naturalHeight;
            doc.size == Size(w, h) &&
            forall i :: 0 <= i < |urls| ==> doc.pages[i] == RasterPage(loadPng(urls[i]).value, w, h))
  {
    if DetectImgType(sample) == Some("svg") {
      AcquiredInOrder(urls, fetchSvg);
      SvgPagesAt(Acquired(urls, fetchSvg));
    } else {
      AcquiredInOrder(urls, loadPng);
      PngPagesAt(Acquired(urls, loadPng), sample.value.naturalWidth, sample.value.naturalHeight);
    }
  }

  /**
   * A document is built exactly when the detected format is `svg` or `png`
   * and every page of that format is acquired; an undetected format is not
   * replaced by `svg` here. The SVG path stops at its first failing fetch;
   * the PNG path rejects when any page throws, and otherwise stays pending
   * when some page never loads.
   */
  lemma AssembleOutcomes(sample: Option<SampleImage>, urls: seq<string>,
                         fetchSvg: string -> Load<SvgElement>, loadPng: string -> Load<string>)
    ensures Assemble(sample, urls, fetchSvg, loadPng).Built? <==>
      (DetectImgType(sample) == Some("svg") && AllAcquired(urls, fetchSvg)) ||
      (DetectImgType(sample) == Some("png") && AllAcquired(urls, loadPng))
    ensures DetectImgType(sample) == Some("svg") && !AllAcquired(urls, fetchSvg) ==>
      (Assemble(sample, urls, fetchSvg, loadPng).Threw? <==> fetchSvg(urls[FirstMissing(urls, fetchSvg)]).Fails?)
    ensures DetectImgType(sample) == Some("png") ==>
      (Assemble(sample, urls, fetchSvg, loadPng).Threw? <==> AnyFails(urls, loadPng))
  {
    if DetectImgType(sample) == Some("png") && AllAcquired(urls, loadPng) {
      assert !AnyFails(urls, loadPng);
    }
  }

  /**
   * The cache-miss part of `generatePDF` up to serialization: the `switch`
   * on the detected format, building the document, and the page image URLs
   * requested on the way.
   */
  method BuildDocument(sample: Option<SampleImage>, pageUrls: seq<string>,
                       fetchSvg: string -> Load<SvgElement>, loadPng: string -> Load<string>,
                       pngCompletion: seq<nat>)
    returns (build: Build, requested: seq<string>)
    requires forall k :: 0 <= k < |pngCompletion| ==>
      pngCompletion[k] < |pageUrls| && !loadPng(pageUrls[pngCompletion[k]]).Hangs?
    requires forall j :: 0 <= j < |pageUrls| && !loadPng(pageUrls[j]).Hangs? ==> j in pngCompletion
    ensures build == Assemble(sample, pageUrls, fetchSvg, loadPng)
    ensures requested == Requests(sample, pageUrls, fetchSvg)
  {
    var imgType := DetectImgType(sample);
    if imgType == Some("svg") {
      var fetched;
      build, fetched := EmbedSvgPages(pageUrls, fetchSvg);
      requested := pageUrls[..fetched];
      assert fetched == |pageUrls| ==> requested == pageUrls;
    } else if imgType == Some("png") {
      var img := sample.value;
      requested := pageUrls;
      var images := AwaitAll(pageUrls, loadPng, pngCompletion);
      if images.Fails? {
        build := Threw;
      } else if images.Hangs? {
        build := NeverSettles;
      } else {
        var doc := EmbedPngPages(images.value, img.naturalWidth, img.naturalHeight);
        build := Built(doc);
      }
    } else {
      build, requested := Threw, [];
    }
  }

  // ---------------------------------------------------------------------
  // The generator's state

  class PdfGenerator {
    /** The one cached document, kept for the page's lifetime */
    var cache: Option<Blob>
    /** Every save so far, in order */
    var saves: seq<SaveEvent>
    /** Every page image URL requested so far, in order */
    var requests: seq<string>

    /** Whatever was saved is the cached blob: once set, the cache is never replaced */
    ghost predicate Valid()
      reads this
    {
      forall k :: 0 <= k < |saves| ==> cache == Some(saves[k].blob)
    }

    /** The state when the page has loaded */
    constructor ()
      ensures Valid()
      ensures cache == None && saves == [] && requests == []
    {
      cache, saves, requests := None, [], [];
    }

    /**
     * `generatePDF(pageURLs, name)`. On a cache hit the cached blob is saved
     * under the new name and nothing is fetched or built. On a miss the
     * document is built and serialized; only a successful serialization is
     * cached and then saved under `name + ".pdf"`. `pngCompletion` is the
     * order in which the PNG loads that complete do so.
     */
    method Generate(sample: Option<SampleImage>, pageUrls: seq<string>, name: Option<string>,
                    fetchSvg: string -> Load<SvgElement>, loadPng: string -> Load<string>,
                    pngCompletion: seq<nat>, getBlob: PdfDocument -> Option<Blob>)
      returns (outcome: Outcome)
      requires Valid()
      requires forall k :: 0 <= k < |pngCompletion| ==>
        pngCompletion[k] < |pageUrls| && !loadPng(pageUrls[pngCompletion[k]]).Hangs?
      requires forall j :: 0 <= j < |pageUrls| && !loadPng(pageUrls[j]).Hangs? ==> j in pngCompletion
      modifies this
      ensures Valid()
      ensures old(cache).Some? ==>
        && outcome == Resolved
        && cache == old(cache)
        && saves == old(saves) + [SaveEvent(old(cache).value, PdfFileName(name))]
        && requests == old(requests)
      ensures old(cache).None? ==> requests == old(requests) + Requests(sample, pageUrls, fetchSvg)
      ensures old(cache).None? ==>
        var build := Assemble(sample, pageUrls, fetchSvg, loadPng);
        if build.Built? && getBlob(build.doc).Some? then
          && outcome == Resolved
          && cache == getBlob(build.doc)
          && saves == old(saves) + [SaveEvent(getBlob(build.doc).value, PdfFileName(name))]
        else
          && outcome == (if build.NeverSettles? then Pending else Rejected)
          && cache == None
          && saves == old(saves)
    {
      if cache.Some? {
        saves := saves + [SaveEvent(cache.value, PdfFileName(name))];
        return Resolved;
      }
      var build, requested := BuildDocument(sample, pageUrls, fetchSvg, loadPng, pngCompletion);
      requests := requests + requested;
      if build.NeverSettles? {
        return Pending;
      } else if build.Threw? {
        return Rejected;
      }
      var blob := getBlob(build.doc);
      if blob.None? {
        return Rejected;
      }
      cache := blob;
      saves := saves + [SaveEvent(blob.value, PdfFileName(name))];
      return Resolved;
    }
  }

  /**
   * Generating twice on a freshly loaded page: the second call, whatever its
   * inputs, saves the bytes of the first under its own name.
   */
  method GenerateTwice(sample: Option<SampleImage>, pageUrls: seq<string>,
                       fetchSvg: string -> Load<SvgElement>, loadPng: string -> Load<string>,
                       getBlob: PdfDocument -> Option<Blob>,
                       name1: Option<string>, name2: Option<string>, sample2: Option<SampleImage>,
                       pageUrls2: seq<string>)
    returns (first: SaveEvent, second: SaveEvent)
    requires Assemble(sample, pageUrls, fetchSvg, loadPng).Built?
    requires getBlob(Assemble(sample, pageUrls, fetchSvg, loadPng).doc).Some?
    ensures first == SaveEvent(getBlob(Assemble(sample, pageUrls, fetchSvg, loadPng).doc).value, PdfFileName(name1))
    ensures second == SaveEvent(first.blob, PdfFileName(name2))
  {
    var g := new PdfGenerator();
    var everyPage := seq(|pageUrls|, j => j);
    AssembleOutcomes(sample, pageUrls, fetchSvg, loadPng);
    forall j | 0 <= j < |pageUrls| ensures j in everyPage { assert everyPage[j] == j; }
    var none := (u: string) => Hangs;
    // Off the PNG path the PNG loader is never consulted
    var png, completion := loadPng, everyPage;
    if DetectImgType(sample) != Some("png") {
      png, completion := none, [];
      assert Assemble(sample, pageUrls, fetchSvg, png) == Assemble(sample, pageUrls, fetchSvg, loadPng);
    }
    var o1 := g.Generate(sample, pageUrls, name1, fetchSvg, png, completion, getBlob);
    first := g.saves[0];
    var o2 := g.Generate(sample2, pageUrls2, name2, fetchSvg, none, [], getBlob);
    second := g.saves[1];
  }
}
