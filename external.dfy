/**
 * The foreign libraries the scanner calls (PIL, OpenCV, imagehash, Tesseract),
 * reduced to oracles: total functions whose values the model never inspects
 * beyond what the scanner itself does with them.  A call that can throw
 * returns a `Call`, whose `Raised` case stands for any exception.
 */
module External {
  type Path = string

  /** A perceptual hash: the bit matrix computed by imagehash, compared by equality only. */
  type Hash = seq<bool>

  newtype uint8 = x: int | 0 <= x < 256

  datatype Option<T> = None | Some(value: T)

  /** Outcome of a library call that may throw. */
  datatype Call<T> = Returned(value: T) | Raised

  /** A decoded PIL image: its size and its pixel payload. */
  datatype PilImage = PilImage(width: nat, height: nat, data: seq<uint8>)

  /** A grayscale decode as OpenCV returns it: rows of intensities. */
  type Gray = seq<seq<uint8>>

  /** An edge map: `rows` x `cols` pixels, each 0 or 255 in practice, stored row by row. */
  datatype EdgeMap = EdgeMap(rows: nat, cols: nat, pixels: seq<uint8>)

  /** A well-shaped edge map: a numpy array is always rectangular. */
  type Edges = e: EdgeMap | |e.pixels| == e.rows * e.cols witness EdgeMap(0, 0, [])

  /**
   * Every call of `Image.open` in the scanner, by call site.  Each one reads the
   * file anew, so each may fail on its own (the file may change between reads).
   */
  datatype OpenSite = VerifyOpen | SizeOpen | HashOpen | OcrOpen

  /**
   * The environment of one scan: what each library call returns.
   *   open(site, p)      Image.open(p) at the given call site
   *   verify(img)        img.verify(), which returns nothing or raises
   *   imreadGray(p)      cv2.imread(p, IMREAD_GRAYSCALE): an image, None, or an exception
   *   canny(g, lo, hi)   cv2.Canny(g, lo, hi)
   *   phash(img)         imagehash.phash(img)
   *   ocr(img)           pytesseract.image_to_string(img)
   */
  datatype Library = Library(
    open: (OpenSite, Path) -> Call<PilImage>,
    verify: PilImage -> Call<()>,
    imreadGray: Path -> Call<Option<Gray>>,
    canny: (Gray, int, int) -> Call<Edges>,
    phash: PilImage -> Call<Hash>,
    ocr: PilImage -> Call<string>
  )
}
