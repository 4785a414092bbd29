# scan-image: a Dafny model of the scan pipeline

scan-image walks a directory tree and reports the images whose OCR text contains
a phrase. It keeps one path per perceptual hash. This project models the core of
that pipeline:

- the per-file worker `process_file` (`Scanner.ProcessFile`);
- the guard chains it calls: the validity filter, the edge-density text
  heuristic, the perceptual hash and the phrase matcher (module `Utils`);
- the orchestrator `scan_images_for_phrase`. It builds one task per walked file
  (`Scanner.BuildTasks`), then runs the consumer loop that de-duplicates results
  by hash (`Scanner.Collect`), and the whole scan is `Scanner.ScanImagesForPhrase`.

PIL, OpenCV, imagehash and Tesseract are oracles: `External.Library` is a record
of total functions, one per library call. A call that can throw returns
`Call.Raised` when it throws; `verify`, which returns nothing, returns
`Returned(())` when it does not. Each `Image.open` call site has its own oracle
(`OpenSite`), because each call reads the file again and may fail on its own.

The process pool is modelled by its observable contract only. A schedule `order`
lists task indices in completion order, and every task appears in it exactly once
(`Scanner.IsSchedule`). The directory walk is an input: a sequence of
`(root, files)` entries.

Files: `config.dfy` (constants), `external.dfy` (oracles and value types),
`text.dfy` (lower-casing, substring search), `paths.dfy` (`splitext`, `join`),
`utils.dfy`, `matchset.dfy` (the seen-hash set and accepted-path list as a function
of the result stream), `scanner.dfy`.

What the code does, in the places where a reader might expect otherwise:

- The hash is computed for every file that passes the heuristic, before OCR, not
  only for files whose text matches (`Scanner.FingerprintBeforeOcr`).
- The second `Image.open` in `is_valid_image` and the open and `phash` in
  `compute_perceptual_hash` are not inside a `try`. Their exceptions escape the
  worker, and `imap_unordered` re-raises them in the consumer, so the scan ends
  with an exception (`ScanOutcome.Aborted`).
- The "edge density" is `edges.sum() / (rows * cols)` over 0/255 edge values.
  That is the mean edge value on the 0..255 scale, not the fraction of edge
  pixels. So a 100x100 image with a single edge pixel already passes
  (`Utils.SingleEdgePixelPasses`).
- The phrase may be empty. The code does not reject it, and an empty phrase
  matches any text that OCR returns.

## Model

| member | source | states |
|---|---|---|
| `Utils.IsValidImage` | scan_image/utils.py:9-21 | an extension off the allow-list gives False; a failed first open or verify gives False; the result is Raised iff the second (size) open raises after verify passed; the result is True iff the extension is allowed, verify passed and the re-opened image is at least MIN_WIDTH x MIN_HEIGHT |
| `Paths.Extension` | scan_image/utils.py:10 | `splitext` extension: empty, or a suffix of the path that starts with '.', has no other '.' and no '/'; a non-empty extension has a non-dot character before it in the last path component, so leading dots of that component never make an extension |
| `Paths.ExtensionFromLastDot` | scan_image/utils.py:10 | conversely, a dot in the last path component with a non-dot character before it in that component gives a non-empty extension, taken from the last dot of the path |
| `Paths.ExtensionExamples` | scan_image/utils.py:10 | `splitext` on sample paths gives ".jpg", ".txt", ".gz" (from the last dot only), and ".JPG" unchanged before lowering |
| `Paths.NoExtensionExamples` | scan_image/utils.py:10 | `splitext` gives no extension for a leading-dot name (".hidden") or for a dot that sits only in a directory name |
| `Text.Lower` | scan_image/utils.py:10 | lower-casing keeps the length, leaves no upper-case ASCII letter, changes only upper-case letters, and turns each upper-case letter into its own lower-case letter (code point + 32) |
| `Text.LowerIdempotent` | scan_image/utils.py:43 | lower-casing twice gives the same string as lower-casing once |
| `Utils.UpperCaseExtensionAllowed` | scan_image/utils.py:10-12 | "photo.JPG" passes the extension test because the extension is lower-cased |
| `Utils.OtherExtensionsRejected` | scan_image/utils.py:11-12 | ".gif" and ".txt" files fail the extension test |
| `Utils.RejectedExtensionOpensNothing` | scan_image/utils.py:11-12 | with a rejected extension the verdict is False under every library behaviour, so no file is opened |
| `Utils.SizeBoundary` | scan_image/utils.py:18-21 | size bounds are inclusive: 50x50 is accepted, 49 in either dimension is rejected |
| `Utils.HasTextHeuristic` | scan_image/utils.py:23-33 | True iff the decode returned an image, edge detection with thresholds 100/200 returned a map, and its density strictly exceeds the threshold |
| `Utils.HeuristicFailuresReject` | scan_image/utils.py:24-33 | a None decode, an exception from the decode and an exception from edge detection all give False |
| `Utils.DefaultThresholdCrossMultiplied` | scan_image/utils.py:29-30 | for a non-empty map, density > 0.02 iff 50 * sum > rows * cols |
| `Utils.ThresholdIsStrict` | scan_image/utils.py:30 | a density exactly equal to the threshold is rejected |
| `Utils.UniformEdgeMaps` | scan_image/utils.py:29-30 | an all-zero edge map is rejected and an all-255 edge map is accepted |
| `Utils.SingleEdgePixelPasses` | scan_image/utils.py:29 | one 255-valued pixel in a 100x100 map exceeds the default threshold (density is a mean on the 0..255 scale) |
| `Utils.ComputePerceptualHash` | scan_image/utils.py:35-37 | when the open returns, the result is exactly the hash oracle on the opened image (value or exception); a failed open raises |
| `Utils.ContainsPhrase` | scan_image/utils.py:39-46 | True iff the open and the OCR both return and the lower-cased phrase occurs at some offset of the lower-cased text; any failure gives False |
| `Text.OccursIff` | scan_image/utils.py:43 | the substring search succeeds iff the needle occurs at some offset of the haystack |
| `Utils.PhraseMatchIgnoresCase` | scan_image/utils.py:43 | phrases that lower-case alike give the same verdict |
| `Utils.PhraseFoundIgnoringCase` | scan_image/utils.py:43 | "test" is found in "Hello THIS is a Test!" |
| `Utils.PhraseNotFound` | scan_image/utils.py:43 | "missing" is not found in "No match here" |
| `Scanner.ProcessFile` | scan_image/scanner.py:15-24 | the stages run are a prefix of validity, heuristic, hash, OCR; the result is (path, h) iff all three predicates hold and the hash returns h; the result is an exception iff the validity check raises, or the hash raises after both checks passed |
| `Scanner.InvalidStopsAtValidity` | scan_image/scanner.py:17-18 | an invalid file gives None after running only the validity stage |
| `Scanner.NoTextStopsAtHeuristic` | scan_image/scanner.py:19-20 | a file that fails the heuristic gives None and is neither hashed nor OCRed |
| `Scanner.FingerprintBeforeOcr` | scan_image/scanner.py:21-23 | the hash is computed iff both checks pass; OCR runs iff the hash also returned |
| `Scanner.WalkedNonImageSkipped` | scan_image/scanner.py:30 | a walked file whose name has a non-image extension is rejected by the validity stage alone, whatever its directory |
| `Paths.Join` | scan_image/scanner.py:30 | an absolute name replaces the root; otherwise the result is root followed by name, with one '/' put between them exactly when root is non-empty and does not already end in '/'; so a name without '/' ends up behind a prefix that is empty or ends in '/' |
| `Paths.JoinKeepsExtension` | scan_image/scanner.py:30 | joining a directory in front of a file name does not change its extension |
| `Paths.ExtensionOfLastComponent` | scan_image/utils.py:10 | the extension depends only on the last path component |
| `Scanner.BuildTasks` | scan_image/scanner.py:27-30 | one task per walked file, in walk order, each paired with the same phrase |
| `Scanner.WalkPathsCount` | scan_image/scanner.py:28-30 | the number of tasks is the total number of files the walk lists |
| `Scanner.WalkPathsIndex` | scan_image/scanner.py:28-30 | the j-th file of the i-th directory is at position (files before directory i) + j, joined to its own directory |
| `Scanner.Collect` | scan_image/scanner.py:32-47 | the consumer loop returns the accepted paths of the stream, or aborts if a result is an exception; its invariant keeps the seen set equal to the hashes of the accepted results |
| `MatchSet.NoMatchChangesNothing` | scan_image/scanner.py:39-40 | a None result leaves the match set unchanged |
| `MatchSet.SeenHashDropped` | scan_image/scanner.py:42-43 | a result whose hash is already seen is dropped |
| `MatchSet.NewHashAppended` | scan_image/scanner.py:44-45 | a result with a new hash has its path appended |
| `MatchSet.AcceptedHashes` | scan_image/scanner.py:42-45 | the seen set equals the set of hashes of all non-None results consumed so far |
| `MatchSet.AcceptedDistinct` | scan_image/scanner.py:42-45 | no two accepted results share a hash |
| `MatchSet.AcceptedCount` | scan_image/scanner.py:38-47 | the number of accepted paths is the number of distinct hashes among the results |
| `MatchSet.AcceptedSubsequence` | scan_image/scanner.py:38-47 | the accepted (path, hash) pairs are a subsequence of the non-None results, in stream order |
| `MatchSet.AcceptedPathsSubsequence` | scan_image/scanner.py:38-47 | the returned paths are a subsequence of the paths of the non-None results, in stream order |
| `MatchSet.AcceptedIffFirst` | scan_image/scanner.py:42-45 | (p, h) is accepted iff some result (p, h) is the first in the stream carrying h |
| `MatchSet.OrderIndependentHashes` | scan_image/scanner.py:38-47 | streams with the same results accept the same hashes and the same number of paths, and abort alike |
| `MatchSet.PermutationIndependentHashes` | scan_image/scanner.py:38 | any permutation of the results accepts the same hashes and the same number of paths |
| `MatchSet.AllNoMatchIsEmpty` | scan_image/scanner.py:38-47 | an all-None stream yields an empty list |
| `MatchSet.DuplicateExample` | scan_image/scanner.py:38-47 | the stream [(a,h1), (b,h1), None] yields [a] |
| `Scanner.ScanImagesForPhrase` | scan_image/scanner.py:26-47 | the scan under a completion order gives the collected outcome of the per-task results in that order |
| `Scanner.ArrivalsSameElements` | scan_image/scanner.py:38 | under a schedule every task's result arrives, and nothing else does |
| `Scanner.TaskResultsElements` | scan_image/scanner.py:30 | a result is among the task results iff the worker produces it for some walked file |
| `Scanner.ScanOrderIndependent` | scan_image/scanner.py:37-47 | two completion orders agree on whether the scan aborts, on the set of accepted hashes and on the number of returned paths |
| `Scanner.ScanAbortsIffWorkerRaises` | scan_image/scanner.py:37-38 | the scan aborts iff the worker raises for some walked file, whatever the order |
| `Scanner.AcceptedCameFromWorker` | scan_image/scanner.py:41-45 | every accepted (path, hash) is the worker result of a walked file with that path |
| `Scanner.ScanSound` | scan_image/scanner.py:26-47 | every returned path is a walked file that passed the validity filter and the heuristic, and whose OCR text contains the phrase |
| `Scanner.ScanComplete` | scan_image/scanner.py:26-47 | for every walked file that matches with hash h, some returned path has hash h |
| `Scanner.ScanDeduplicated` | scan_image/scanner.py:42-45 | no two returned paths have the same perceptual hash |
| `Scanner.NoMatchScanIsEmpty` | scan_image/scanner.py:38-47 | when no walked file matches, the scan returns an empty list |

## Left out

- Process parallelism (`Pool`, `cpu_count`, `imap_unordered`) is not modelled. Only its contract is kept: every task's result reaches the single consumer exactly once, in some order.
- `os.walk` is not modelled; its output is an input sequence. Symbolic links and traversal order are therefore not modelled.
- Image decoding, `verify`, Canny edge detection, pHash and Tesseract OCR are oracles. Only their success or failure and the values they return are modelled.
- The density division is exact arithmetic over `real`, not IEEE floating point. An empty edge map is rejected, as numpy's 0/0 = NaN compares false.
- `Text.Lower`: folds only ASCII letters, whereas Python's `str.lower` folds all of Unicode.
- `Paths.Extension` and `Paths.Join` follow POSIX `posixpath`. The Windows path rules (drive letters, '\\') are not modelled.
- Logging calls inside the core (`logging.info`, `debug` and `error`) are not modelled; they do not affect any result.
- `main` is not modelled: argument parsing, interactive input, the directory check, timing and sleep. `setup_logging` and `setup_tesseract` are not modelled either: environment variables and the Tesseract binary path. scan_image/logger.py and setup.py are not part of this model.
- The `with` blocks closing images are not modelled, and neither is an exception raised while closing.
