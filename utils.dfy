/**
 * The per-file predicates of scan_image/utils.py: the validity filter, the
 * edge-density text heuristic, the perceptual fingerprint and the phrase
 * matcher, each a guard chain around library calls (see module External).
 */
module Utils {
  import opened Config
  import opened External
  import opened Text
  import opened Paths

  /** The lower-cased extension of `p` is on the allow-list. */
  predicate ExtensionAllowed(p: Path) {
    Lower(Extension(p)) in IMAGE_EXTENSIONS
  }

  /** The first `Image.open` and `verify()` both return without raising. */
  predicate OpensAndVerifies(lib: Library, p: Path) {
    match lib.open(VerifyOpen, p)
    case Raised => false
    case Returned(img) => lib.verify(img).Returned?
  }

  /** An image of at least the configured minimum size, both bounds inclusive. */
  predicate LargeEnough(img: PilImage) {
    img.width >= MIN_WIDTH && img.height >= MIN_HEIGHT
  }

  /**
   * `is_valid_image`.  The extension is checked first, without touching the
   * file; a failure of the first open or of `verify` is caught and rejects; the
   * second open (for the size check) is outside the `try`, so its failure
   * escapes as `Raised`.
   */
  function IsValidImage(lib: Library, p: Path): (r: Call<bool>)
    ensures !ExtensionAllowed(p) ==> r == Returned(false)
    ensures ExtensionAllowed(p) && !OpensAndVerifies(lib, p) ==> r == Returned(false)
    ensures r == Raised <==>
      ExtensionAllowed(p) && OpensAndVerifies(lib, p) && lib.open(SizeOpen, p).Raised?
    ensures r == Returned(true) <==>
      ExtensionAllowed(p) && OpensAndVerifies(lib, p) &&
      lib.open(SizeOpen, p).Returned? && LargeEnough(lib.open(SizeOpen, p).value)
  {
    var ext := Lower(Extension(p));
    if ext !in IMAGE_EXTENSIONS then Returned(false)
    else
      match lib.open(VerifyOpen, p)
      case Raised => Returned(false)
      case Returned(img) =>
        if lib.verify(img).Raised? then Returned(false)
        else
          match lib.open(SizeOpen, p)
          case Raised => Raised
          case Returned(sized) =>
            if sized.width < MIN_WIDTH || sized.height < MIN_HEIGHT then Returned(false)
            else Returned(true)
  }

  /** Sum of all pixel values (numpy's `edges.sum()`, which accumulates in a wide integer). */
  function Sum(pixels: seq<uint8>): (r: int)
    ensures r >= 0
  {
    if pixels == [] then 0 else Sum(pixels[..|pixels| - 1]) + pixels[|pixels| - 1] as int
  }

  /**
   * `edge_density > edge_thresh` with `edge_density = edges.sum() / (rows * cols)`.
   * For an empty map numpy computes 0/0 = NaN, and NaN exceeds nothing.
   */
  predicate DensityExceeds(e: Edges, edgeThresh: real) {
    e.rows * e.cols > 0 &&
    (Sum(e.pixels) as real) / ((e.rows * e.cols) as real) > edgeThresh
  }

  /**
   * `has_text_heuristic`.  Every library failure (an exception from the decode
   * or the edge detector) and a `None` decode reject; nothing escapes.
   */
  function HasTextHeuristic(lib: Library, p: Path, edgeThresh: real := DEFAULT_EDGE_THRESH): (r: bool)
    ensures r <==> (var decoded := lib.imreadGray(p);
                    decoded.Returned? && decoded.value.Some? &&
                    (var edges := lib.canny(decoded.value.value, CANNY_LOW, CANNY_HIGH);
                     edges.Returned? && DensityExceeds(edges.value, edgeThresh)))
  {
    match lib.imreadGray(p)
    case Raised => false
    case Returned(None) => false
    case Returned(Some(gray)) =>
      match lib.canny(gray, CANNY_LOW, CANNY_HIGH)
      case Raised => false
      case Returned(edges) => DensityExceeds(edges, edgeThresh)
  }

  /** `compute_perceptual_hash`: open the file and hash it; either failure escapes. */
  function ComputePerceptualHash(lib: Library, p: Path): (r: Call<Hash>)
    ensures lib.open(HashOpen, p).Returned? ==> r == lib.phash(lib.open(HashOpen, p).value)
    ensures lib.open(HashOpen, p).Raised? ==> r == Raised
  {
    match lib.open(HashOpen, p)
    case Raised => Raised
    case Returned(img) => lib.phash(img)
  }

  /**
   * `contains_phrase`: OCR the image and test, ignoring case, whether the
   * phrase occurs in the text.  A failure to open or to OCR is a non-match.
   */
  function ContainsPhrase(lib: Library, p: Path, phrase: string): (r: bool)
    ensures r <==> (var image := lib.open(OcrOpen, p);
                    image.Returned? &&
                    (var text := lib.ocr(image.value);
                     text.Returned? && exists k :: OccursAt(Lower(phrase), Lower(text.value), k)))
  {
    match lib.open(OcrOpen, p)
    case Raised => false
    case Returned(img) =>
      match lib.ocr(img)
      case Raised => false
      case Returned(text) =>
        OccursIff(Lower(phrase), Lower(text));
        Occurs(Lower(phrase), Lower(text))
  }

  // ---------------------------------------------------------------------------
  // Properties of the validity filter

  /** Upper-case extensions are accepted by virtue of the lower-casing. */
  lemma UpperCaseExtensionAllowed()
    ensures ExtensionAllowed("photo.JPG")
  {
    assert Extension("photo.JPG") == ".JPG" by { ExtensionExamples(); }
    assert Lower(".JPG") == ".jpg";
  }

  /** Extensions outside the allow-list are rejected. */
  lemma OtherExtensionsRejected()
    ensures !ExtensionAllowed("file.gif")
    ensures !ExtensionAllowed("/folder/c.txt")
  {
    GifRejected();
    TxtRejected();
  }

  lemma GifRejected()
    ensures !ExtensionAllowed("file.gif")
  {
    GifExtension();
    LowerWithoutUpper(".gif");
  }

  lemma GifExtension()
    ensures Extension("file.gif") == ".gif"
  {
    LastIndexOfUnique("file.gif", '.', 4);
    LastIndexOfUnique("file.gif", '/', -1);
    assert HasNonDot("file.gif", 0, 4) by { assert "file.gif"[0] != '.'; }
  }

  lemma TxtRejected()
    ensures !ExtensionAllowed("/folder/c.txt")
  {
    ExtensionExamples();
    LowerWithoutUpper(".txt");
  }

  /**
   * A file with a rejected extension is rejected whatever the file holds:
   * the verdict does not depend on any library call, so none is made.
   */
  lemma RejectedExtensionOpensNothing(lib1: Library, lib2: Library, p: Path)
    requires !ExtensionAllowed(p)
    ensures IsValidImage(lib1, p) == IsValidImage(lib2, p) == Returned(false)
  {
  }

  /** The size bounds are inclusive: 50x50 passes, 49 in either dimension fails. */
  lemma SizeBoundary(lib: Library, p: Path)
    requires ExtensionAllowed(p) && OpensAndVerifies(lib, p)
    ensures lib.open(SizeOpen, p) == Returned(PilImage(50, 50, [])) ==> IsValidImage(lib, p) == Returned(true)
    ensures lib.open(SizeOpen, p) == Returned(PilImage(49, 50, [])) ==> IsValidImage(lib, p) == Returned(false)
    ensures lib.open(SizeOpen, p) == Returned(PilImage(50, 49, [])) ==> IsValidImage(lib, p) == Returned(false)
  {
  }

  // ---------------------------------------------------------------------------
  // Properties of the text heuristic

  lemma {:induction false} SumOfConstant(pixels: seq<uint8>, v: uint8)
    requires forall i :: 0 <= i < |pixels| ==> pixels[i] == v
    ensures Sum(pixels) == |pixels| * v as int
  {
    if pixels != [] {
      SumOfConstant(pixels[..|pixels| - 1], v);
    }
  }

  /** For a positive pixel count, `s / n > 0.02` is `50 * s > n`. */
  lemma RatioAboveOneFiftieth(s: real, n: real)
    requires n > 0.0
    ensures s / n > 0.02 <==> 50.0 * s > n
  {
    var d := s / n;
    assert d * n == s;
    if d > 0.02 {
      var t := d - 0.02;
      assert d * n == 0.02 * n + t * n;
      assert t * n > 0.0;
    } else {
      var t := 0.02 - d;
      assert d * n == 0.02 * n - t * n;
      assert t * n >= 0.0;
    }
  }

  lemma {:induction false} SumAppend(a: seq<uint8>, b: seq<uint8>)
    ensures Sum(a + b) == Sum(a) + Sum(b)
    decreases |b|
  {
    if b == [] {
      assert a + b == a;
    } else {
      assert (a + b)[..|a + b| - 1] == a + b[..|b| - 1];
      SumAppend(a, b[..|b| - 1]);
    }
  }

  /**
   * The density is the mean edge value on the 0..255 scale, not the fraction of
   * edge pixels: a 100x100 map with a single edge pixel (one pixel in ten
   * thousand) already exceeds the default threshold.
   */
  lemma SingleEdgePixelPasses(e: Edges)
    requires e.rows == 100 && e.cols == 100
    requires e.pixels == [255 as uint8] + seq(9999, _ => 0 as uint8)
    ensures DensityExceeds(e, DEFAULT_EDGE_THRESH)
  {
    var zeros := seq(9999, _ => 0 as uint8);
    SumAppend([255 as uint8], zeros);
    SumOfConstant(zeros, 0);
    assert Sum([255 as uint8]) == 255 by {
      assert [255 as uint8][..0] == [];
    }
    DefaultThresholdCrossMultiplied(e);
  }

  /** With the default threshold 0.02 the test is `50 * sum > rows * cols`, in exact arithmetic. */
  lemma DefaultThresholdCrossMultiplied(e: Edges)
    requires e.rows * e.cols > 0
    ensures DensityExceeds(e, DEFAULT_EDGE_THRESH) <==> 50 * Sum(e.pixels) > e.rows * e.cols
  {
    RatioAboveOneFiftieth(Sum(e.pixels) as real, (e.rows * e.cols) as real);
  }

  /** The comparison is strict: a density exactly at the threshold is rejected. */
  lemma ThresholdIsStrict(e: Edges)
    requires e.rows * e.cols > 0 && 50 * Sum(e.pixels) == e.rows * e.cols
    ensures !DensityExceeds(e, DEFAULT_EDGE_THRESH)
  {
    DefaultThresholdCrossMultiplied(e);
  }

  /** An edge map with no edges is rejected; one that is all edges (255) is accepted. */
  lemma UniformEdgeMaps(e: Edges)
    requires e.rows * e.cols > 0
    ensures (forall i :: 0 <= i < |e.pixels| ==> e.pixels[i] == 0) ==> !DensityExceeds(e, DEFAULT_EDGE_THRESH)
    ensures (forall i :: 0 <= i < |e.pixels| ==> e.pixels[i] == 255) ==> DensityExceeds(e, DEFAULT_EDGE_THRESH)
  {
    DefaultThresholdCrossMultiplied(e);
    if forall i :: 0 <= i < |e.pixels| ==> e.pixels[i] == 0 {
      SumOfConstant(e.pixels, 0);
    }
    if forall i :: 0 <= i < |e.pixels| ==> e.pixels[i] == 255 {
      SumOfConstant(e.pixels, 255);
    }
  }

  /** A `None` decode, or an exception from the decode or the edge detector, rejects. */
  lemma HeuristicFailuresReject(lib: Library, p: Path, edgeThresh: real)
    ensures lib.imreadGray(p) == Returned(None) ==> !HasTextHeuristic(lib, p, edgeThresh)
    ensures lib.imreadGray(p) == Raised ==> !HasTextHeuristic(lib, p, edgeThresh)
    ensures (lib.imreadGray(p).Returned? && lib.imreadGray(p).value.Some? &&
             lib.canny(lib.imreadGray(p).value.value, CANNY_LOW, CANNY_HIGH) == Raised)
            ==> !HasTextHeuristic(lib, p, edgeThresh)
  {
  }

  // ---------------------------------------------------------------------------
  // Properties of the phrase matcher

  /** The match ignores letter case in the phrase and in the recognised text. */
  lemma PhraseMatchIgnoresCase(lib: Library, p: Path, phrase1: string, phrase2: string)
    requires Lower(phrase1) == Lower(phrase2)
    ensures ContainsPhrase(lib, p, phrase1) == ContainsPhrase(lib, p, phrase2)
  {
  }

  /** "test" is found in "Hello THIS is a Test!", since matching ignores case. */
  lemma PhraseFoundIgnoringCase()
    ensures Occurs(Lower("test"), Lower("Hello THIS is a Test!"))
  {
    var hay := Lower("Hello THIS is a Test!");
    assert Lower("test") == "test";
    assert hay[16] == 't' && hay[17] == 'e' && hay[18] == 's' && hay[19] == 't';
    assert hay[16..20] == "test";
    OccursIff("test", hay);
    assert OccursAt("test", hay, 16);
  }

  /** "missing" is not found in "No match here". */
  lemma PhraseNotFound()
    ensures !Occurs(Lower("missing"), Lower("No match here"))
  {
    var text := "No match here";
    var hay := Lower(text);
    assert Lower("missing") == "missing";
    OccursIff("missing", hay);
    forall k | 0 <= k <= 6 ensures hay[k] != 'm' || hay[k + 1] != 'i' {
      assert hay[k] == LowerChar(text[k]) && hay[k + 1] == LowerChar(text[k + 1]);
    }
    forall k | 0 <= k ensures !OccursAt("missing", hay, k) {
      if k + 7 <= |hay| {
        var window := hay[k..k + 7];
        assert window[0] == hay[k] && window[1] == hay[k + 1];
      }
    }
  }
}
