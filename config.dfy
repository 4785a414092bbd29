/** Fixed configuration of the scanner (scan_image/config.py). */
module Config {
  /** File extensions (lower case, with the leading dot) accepted by the validity filter. */
  const IMAGE_EXTENSIONS: set<string> := {".png", ".jpg", ".jpeg", ".bmp", ".tiff"}

  /** Smallest accepted image width and height, in pixels (both bounds inclusive). */
  const MIN_WIDTH: nat := 50
  const MIN_HEIGHT: nat := 50

  /** Default edge-density threshold of the text heuristic (strictly exceeded to accept). */
  const DEFAULT_EDGE_THRESH: real := 0.02

  /** Low and high hysteresis thresholds handed to the edge detector. */
  const CANNY_LOW: int := 100
  const CANNY_HIGH: int := 200
}
