/**
 * scan_image/scanner.py: the per-file worker `process_file` and the
 * orchestrator `scan_images_for_phrase`, which builds one task per walked
 * file, runs the tasks on a process pool and de-duplicates the results by
 * perceptual hash as they arrive.
 */
module Scanner {
  import opened External
  import opened Paths
  import opened Utils
  import opened MatchSet

  /** The argument tuple of one worker task. */
  datatype Task = Task(path: Path, phrase: string)

  /** The stages of the worker, in the order it runs them. */
  datatype Stage = Validity | TextHeuristic | Fingerprint | PhraseMatch

  const AllStages: seq<Stage> := [Validity, TextHeuristic, Fingerprint, PhraseMatch]

  /** A worker's result together with the stages it ran. */
  datatype TaskRun = TaskRun(result: TaskResult, stages: seq<Stage>)

  /** One entry of `os.walk`: a directory and the names of the files in it. */
  datatype WalkEntry = WalkEntry(root: Path, files: seq<string>)

  /**
   * `process_file`: validity, then the text heuristic, then the fingerprint,
   * then OCR; each failed check ends the chain with `None`.  The fingerprint is
   * computed for every file that passes the heuristic, before OCR.  Exceptions
   * from the size check and from the fingerprint are not caught.
   */
  function ProcessFile(lib: Library, task: Task): (run: TaskRun)
    ensures 1 <= |run.stages| <= |AllStages| && run.stages == AllStages[..|run.stages|]
    ensures run.result.Found? <==>
      IsValidImage(lib, task.path) == Returned(true) &&
      HasTextHeuristic(lib, task.path) &&
      ComputePerceptualHash(lib, task.path).Returned? &&
      ContainsPhrase(lib, task.path, task.phrase)
    ensures run.result.Found? ==>
      run.result.path == task.path &&
      ComputePerceptualHash(lib, task.path) == Returned(run.result.hash)
    ensures run.result.Failed? <==>
      IsValidImage(lib, task.path) == Raised ||
      (IsValidImage(lib, task.path) == Returned(true) &&
       HasTextHeuristic(lib, task.path) &&
       ComputePerceptualHash(lib, task.path) == Raised)
  {
    match IsValidImage(lib, task.path)
    case Raised => TaskRun(Failed, [Validity])
    case Returned(false) => TaskRun(NoMatch, [Validity])
    case Returned(true) =>
      if !HasTextHeuristic(lib, task.path) then TaskRun(NoMatch, [Validity, TextHeuristic])
      else
        match ComputePerceptualHash(lib, task.path)
        case Raised => TaskRun(Failed, [Validity, TextHeuristic, Fingerprint])
        case Returned(h) =>
          if ContainsPhrase(lib, task.path, task.phrase) then TaskRun(Found(task.path, h), AllStages)
          else TaskRun(NoMatch, AllStages)
  }

  /** A file that fails the validity filter is dropped before any other stage runs. */
  lemma InvalidStopsAtValidity(lib: Library, task: Task)
    requires IsValidImage(lib, task.path) == Returned(false)
    ensures ProcessFile(lib, task) == TaskRun(NoMatch, [Validity])
  {
  }

  /**
   * A walked file whose name has an extension off the allow-list is dropped by
   * the validity filter, whatever directory it sits in and whatever it holds.
   */
  lemma WalkedNonImageSkipped(lib: Library, root: Path, name: string, phrase: string)
    requires '/' !in name && !ExtensionAllowed(name)
    ensures ProcessFile(lib, Task(Join(root, name), phrase)) == TaskRun(NoMatch, [Validity])
  {
    JoinKeepsExtension(root, name);
  }

  /** A file that fails the text heuristic is dropped before it is fingerprinted or read by OCR. */
  lemma NoTextStopsAtHeuristic(lib: Library, task: Task)
    requires IsValidImage(lib, task.path) == Returned(true)
    requires !HasTextHeuristic(lib, task.path)
    ensures ProcessFile(lib, task) == TaskRun(NoMatch, [Validity, TextHeuristic])
  {
  }

  /**
   * Every file that passes both checks is fingerprinted, whether or not its
   * text matches; OCR runs only after the fingerprint has been computed.
   */
  lemma FingerprintBeforeOcr(lib: Library, task: Task)
    ensures Fingerprint in ProcessFile(lib, task).stages <==>
      IsValidImage(lib, task.path) == Returned(true) && HasTextHeuristic(lib, task.path)
    ensures PhraseMatch in ProcessFile(lib, task).stages <==>
      IsValidImage(lib, task.path) == Returned(true) && HasTextHeuristic(lib, task.path) &&
      ComputePerceptualHash(lib, task.path).Returned?
  {
  }

  // ---------------------------------------------------------------------------
  // Building the task list

  /** The joined paths of the walk, entry by entry and file by file. */
  function WalkPaths(walk: seq<WalkEntry>): seq<Path>
    decreases |walk|
  {
    if walk == [] then []
    else
      var last := walk[|walk| - 1];
      WalkPaths(walk[..|walk| - 1]) + seq(|last.files|, k requires 0 <= k < |last.files| => Join(last.root, last.files[k]))
  }

  /** The number of files the walk lists. */
  function FileCount(walk: seq<WalkEntry>): nat
    decreases |walk|
  {
    if walk == [] then 0 else FileCount(walk[..|walk| - 1]) + |walk[|walk| - 1].files|
  }

  lemma {:induction false} WalkPathsCount(walk: seq<WalkEntry>)
    ensures |WalkPaths(walk)| == FileCount(walk)
    decreases |walk|
  {
    if walk != [] {
      WalkPathsCount(walk[..|walk| - 1]);
    }
  }

  /**
   * Walk order: the `j`-th file of the `i`-th directory comes right after all
   * files of the directories before it, joined to its own directory.
   */
  lemma {:induction false} WalkPathsIndex(walk: seq<WalkEntry>, i: nat, j: nat)
    requires i < |walk| && j < |walk[i].files|
    ensures FileCount(walk[..i]) + j < |WalkPaths(walk)|
    ensures WalkPaths(walk)[FileCount(walk[..i]) + j] == Join(walk[i].root, walk[i].files[j])
    decreases |walk|
  {
    var n := |walk| - 1;
    WalkPathsCount(walk[..n]);
    if i == n {
    } else {
      WalkPathsIndex(walk[..n], i, j);
      assert walk[..n][..i] == walk[..i];
    }
  }

  /**
   * The task list of `scan_images_for_phrase`: for each directory of the walk,
   * for each file in it, the joined path paired with the phrase.
   */
  method BuildTasks(walk: seq<WalkEntry>, phrase: string) returns (tasks: seq<Task>)
    ensures |tasks| == |WalkPaths(walk)|
    ensures forall k :: 0 <= k < |tasks| ==> tasks[k] == Task(WalkPaths(walk)[k], phrase)
  {
    tasks := [];
    for i := 0 to |walk|
      invariant |tasks| == |WalkPaths(walk[..i])|
      invariant forall k :: 0 <= k < |tasks| ==> tasks[k] == Task(WalkPaths(walk[..i])[k], phrase)
    {
      var entry := walk[i];
      ghost var before := WalkPaths(walk[..i]);
      for j := 0 to |entry.files|
        invariant |tasks| == |before| + j
        invariant forall k :: 0 <= k < |before| ==> tasks[k] == Task(before[k], phrase)
        invariant forall k :: 0 <= k < j ==> tasks[|before| + k] == Task(Join(entry.root, entry.files[k]), phrase)
      {
        tasks := tasks + [Task(Join(entry.root, entry.files[j]), phrase)];
      }
      assert walk[..i + 1][..i] == walk[..i];
    }
    assert walk[..|walk|] == walk;
  }

  // ---------------------------------------------------------------------------
  // Collecting the results

  /**
   * The consumer loop: skip `None`, drop a result whose hash was already seen,
   * otherwise record the hash and append the path.  An exception raised in a
   * worker surfaces here and ends the scan.
   */
  method Collect(stream: seq<TaskResult>) returns (outcome: ScanOutcome)
    ensures outcome == Collected(stream)
  {
    var found: seq<Path> := [];
    var seenHashes: set<Hash> := {};
    for i := 0 to |stream|
      invariant Failed !in stream[..i]
      invariant found == PathsOf(Accept(stream[..i]))
      invariant seenHashes == HashesOf(Accept(stream[..i]))
    {
      assert stream[..i + 1][..i] == stream[..i];
      match stream[i]
      case Failed =>
        assert Failed in stream;
        return Aborted;
      case NoMatch =>
      case Found(imagePath, imgHash) =>
        if imgHash !in seenHashes {
          HashesOfSnoc(Accept(stream[..i]), Accepted(imagePath, imgHash));
          seenHashes := seenHashes + {imgHash};
          found := found + [imagePath];
        }
    }
    assert stream[..|stream|] == stream;
    outcome := Completed(found);
  }

  // ---------------------------------------------------------------------------
  // The whole scan

  /** The result of every task, in task-list order. */
  function TaskResults(lib: Library, walk: seq<WalkEntry>, phrase: string): (results: seq<TaskResult>)
    ensures |results| == |WalkPaths(walk)|
  {
    var paths := WalkPaths(walk);
    seq(|paths|, k requires 0 <= k < |paths| => ProcessFile(lib, Task(paths[k], phrase)).result)
  }

  /**
   * What the pool promises the consumer: `order[k]` is the task whose result
   * arrives `k`-th, and every one of the `n` tasks arrives exactly once.
   */
  predicate IsSchedule(order: seq<nat>, n: nat) {
    (forall k :: 0 <= k < |order| ==> order[k] < n) &&
    (forall j :: 0 <= j < n ==> multiset(order)[j] == 1)
  }

  /** The results in arrival order. */
  function Arrivals(results: seq<TaskResult>, order: seq<nat>): seq<TaskResult>
    requires forall k :: 0 <= k < |order| ==> order[k] < |results|
  {
    seq(|order|, k requires 0 <= k < |order| => results[order[k]])
  }

  /** The outcome of `scan_images_for_phrase` under a given completion order. */
  function Scan(lib: Library, walk: seq<WalkEntry>, phrase: string, order: seq<nat>): ScanOutcome
    requires IsSchedule(order, |WalkPaths(walk)|)
  {
    Collected(Arrivals(TaskResults(lib, walk, phrase), order))
  }

  /**
   * `scan_images_for_phrase(folder, phrase)` with the directory walk given as
   * `walk` and the pool's completion order as `order`.
   */
  method ScanImagesForPhrase(lib: Library, walk: seq<WalkEntry>, phrase: string, order: seq<nat>)
    returns (outcome: ScanOutcome)
    requires IsSchedule(order, |WalkPaths(walk)|)
    ensures outcome == Scan(lib, walk, phrase, order)
  {
    var tasks := BuildTasks(walk, phrase);
    var results := seq(|tasks|, k requires 0 <= k < |tasks| => ProcessFile(lib, tasks[k]).result);
    assert results == TaskResults(lib, walk, phrase);
    var stream := seq(|order|, k requires 0 <= k < |order| => results[order[k]]);
    outcome := Collect(stream);
  }

  // ---------------------------------------------------------------------------
  // Properties of the whole scan

  /** Every task's result arrives, and nothing else does. */
  lemma ArrivalsSameElements(results: seq<TaskResult>, order: seq<nat>)
    requires IsSchedule(order, |results|)
    ensures forall r :: r in Arrivals(results, order) <==> r in results
  {
    var arrived := Arrivals(results, order);
    forall r | r in results ensures r in arrived {
      var j :| 0 <= j < |results| && results[j] == r;
      assert multiset(order)[j] == 1;
      assert j in order;
      var k :| 0 <= k < |order| && order[k] == j;
      assert arrived[k] == r;
    }
  }

  /**
   * The completion order changes neither whether the scan aborts nor which
   * fingerprints, and how many paths, it accepts.
   */
  lemma ScanOrderIndependent(lib: Library, walk: seq<WalkEntry>, phrase: string, order1: seq<nat>, order2: seq<nat>)
    requires IsSchedule(order1, |WalkPaths(walk)|) && IsSchedule(order2, |WalkPaths(walk)|)
    ensures Scan(lib, walk, phrase, order1).Aborted? <==> Scan(lib, walk, phrase, order2).Aborted?
    ensures var results := TaskResults(lib, walk, phrase);
            HashesOf(Accept(Arrivals(results, order1))) == HashesOf(Accept(Arrivals(results, order2)))
    ensures Scan(lib, walk, phrase, order1).Completed? ==>
            |Scan(lib, walk, phrase, order1).found| == |Scan(lib, walk, phrase, order2).found|
  {
    var results := TaskResults(lib, walk, phrase);
    ArrivalsSameElements(results, order1);
    ArrivalsSameElements(results, order2);
    OrderIndependentHashes(Arrivals(results, order1), Arrivals(results, order2));
  }

  /** A result is among the task results exactly when some walked file's worker produces it. */
  lemma TaskResultsElements(lib: Library, walk: seq<WalkEntry>, phrase: string, r: TaskResult)
    ensures r in TaskResults(lib, walk, phrase) <==>
            exists p :: p in WalkPaths(walk) && ProcessFile(lib, Task(p, phrase)).result == r
  {
    var results, paths := TaskResults(lib, walk, phrase), WalkPaths(walk);
    if r in results {
      var k :| 0 <= k < |results| && results[k] == r;
      assert paths[k] in paths;
    }
    if p :| p in paths && ProcessFile(lib, Task(p, phrase)).result == r {
      var k :| 0 <= k < |paths| && paths[k] == p;
      assert results[k] == r;
    }
  }

  /** The scan aborts exactly when some walked file makes its worker raise. */
  lemma ScanAbortsIffWorkerRaises(lib: Library, walk: seq<WalkEntry>, phrase: string, order: seq<nat>)
    requires IsSchedule(order, |WalkPaths(walk)|)
    ensures Scan(lib, walk, phrase, order).Aborted? <==>
            exists p :: p in WalkPaths(walk) && ProcessFile(lib, Task(p, phrase)).result == Failed
  {
    ArrivalsSameElements(TaskResults(lib, walk, phrase), order);
    TaskResultsElements(lib, walk, phrase, Failed);
  }

  /** Every accepted entry is the result of a walked file's worker. */
  lemma AcceptedCameFromWorker(lib: Library, walk: seq<WalkEntry>, phrase: string, order: seq<nat>, a: Accepted)
    requires IsSchedule(order, |WalkPaths(walk)|)
    requires a in Accept(Arrivals(TaskResults(lib, walk, phrase), order))
    ensures a.path in WalkPaths(walk)
    ensures ProcessFile(lib, Task(a.path, phrase)).result == Found(a.path, a.hash)
  {
    var results := TaskResults(lib, walk, phrase);
    var stream := Arrivals(results, order);
    AcceptedIffFirst(stream, a.path, a.hash);
    var i :| FirstWithHash(stream, i, a.path, a.hash);
    assert stream[i] in stream;
    ArrivalsSameElements(results, order);
    TaskResultsElements(lib, walk, phrase, Found(a.path, a.hash));
  }

  /**
   * Soundness: every reported path is a walked file that passed the validity
   * filter and the text heuristic and whose OCR text contains the phrase.
   */
  lemma ScanSound(lib: Library, walk: seq<WalkEntry>, phrase: string, order: seq<nat>, p: Path)
    requires IsSchedule(order, |WalkPaths(walk)|)
    requires Scan(lib, walk, phrase, order).Completed?
    requires p in Scan(lib, walk, phrase, order).found
    ensures p in WalkPaths(walk)
    ensures IsValidImage(lib, p) == Returned(true)
    ensures HasTextHeuristic(lib, p)
    ensures ContainsPhrase(lib, p, phrase)
  {
    var acc := Accept(Arrivals(TaskResults(lib, walk, phrase), order));
    var k :| 0 <= k < |acc| && PathsOf(acc)[k] == p;
    assert acc[k] in acc;
    AcceptedCameFromWorker(lib, walk, phrase, order, acc[k]);
  }

  /** Completeness: each matching walked file is represented by a reported path with the same fingerprint. */
  lemma ScanComplete(lib: Library, walk: seq<WalkEntry>, phrase: string, order: seq<nat>, p: Path, h: Hash)
    requires IsSchedule(order, |WalkPaths(walk)|)
    requires Scan(lib, walk, phrase, order).Completed?
    requires p in WalkPaths(walk) && ProcessFile(lib, Task(p, phrase)).result == Found(p, h)
    ensures exists q :: q in Scan(lib, walk, phrase, order).found && ComputePerceptualHash(lib, q) == Returned(h)
  {
    var results := TaskResults(lib, walk, phrase);
    var stream := Arrivals(results, order);
    var acc := Accept(stream);
    TaskResultsElements(lib, walk, phrase, Found(p, h));
    ArrivalsSameElements(results, order);
    assert Found(p, h) in stream;
    AcceptedHashes(stream);
    assert h in FoundHashes(stream);
    var a :| a in acc && a.hash == h;
    AcceptedCameFromWorker(lib, walk, phrase, order, a);
    var k :| 0 <= k < |acc| && acc[k] == a;
    assert PathsOf(acc)[k] in PathsOf(acc);
  }

  /** De-duplication: no two reported paths have the same fingerprint. */
  lemma ScanDeduplicated(lib: Library, walk: seq<WalkEntry>, phrase: string, order: seq<nat>, i: nat, j: nat)
    requires IsSchedule(order, |WalkPaths(walk)|)
    requires Scan(lib, walk, phrase, order).Completed?
    requires i < j < |Scan(lib, walk, phrase, order).found|
    ensures var found := Scan(lib, walk, phrase, order).found;
            ComputePerceptualHash(lib, found[i]) != ComputePerceptualHash(lib, found[j])
  {
    var stream := Arrivals(TaskResults(lib, walk, phrase), order);
    var acc := Accept(stream);
    AcceptedDistinct(stream);
    assert acc[i] in acc && acc[j] in acc;
    AcceptedCameFromWorker(lib, walk, phrase, order, acc[i]);
    AcceptedCameFromWorker(lib, walk, phrase, order, acc[j]);
  }

  /** A scan in which no file matches reports nothing. */
  lemma NoMatchScanIsEmpty(lib: Library, walk: seq<WalkEntry>, phrase: string, order: seq<nat>)
    requires IsSchedule(order, |WalkPaths(walk)|)
    requires forall p :: p in WalkPaths(walk) ==> ProcessFile(lib, Task(p, phrase)).result == NoMatch
    ensures Scan(lib, walk, phrase, order) == Completed([])
  {
    var results := TaskResults(lib, walk, phrase);
    var stream := Arrivals(results, order);
    forall k | 0 <= k < |stream| ensures stream[k] == NoMatch {
      assert WalkPaths(walk)[order[k]] in WalkPaths(walk);
    }
    AllNoMatchIsEmpty(stream);
  }
}
