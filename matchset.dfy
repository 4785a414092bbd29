/**
 * The orchestrator's match set: the seen-fingerprint set and the ordered list
 * of accepted paths that scan_images_for_phrase builds while it consumes the
 * worker results.  This module gives the state after consuming a stream of
 * results as a function of the stream, and proves what it promises:
 * no fingerprint is accepted twice, the first result with a fingerprint wins,
 * and the set of accepted fingerprints does not depend on arrival order.
 */
module MatchSet {
  import opened External

  /** What one worker task hands back: `None`, `(path, hash)`, or an exception. */
  datatype TaskResult = NoMatch | Found(path: Path, hash: Hash) | Failed

  /** An accepted result: a path together with its fingerprint. */
  datatype Accepted = Accepted(path: Path, hash: Hash)

  /** The end of a scan: the ordered accepted paths, or an exception out of a worker. */
  datatype ScanOutcome = Completed(found: seq<Path>) | Aborted

  function HashesOf(acc: seq<Accepted>): set<Hash> {
    set a | a in acc :: a.hash
  }

  function PathsOf(acc: seq<Accepted>): (paths: seq<Path>)
    ensures |paths| == |acc|
    ensures forall k :: 0 <= k < |acc| ==> paths[k] == acc[k].path
  {
    seq(|acc|, k requires 0 <= k < |acc| => acc[k].path)
  }

  /** The fingerprints carried by the non-`None` results of a stream. */
  function FoundHashes(stream: seq<TaskResult>): set<Hash> {
    set r | r in stream && r.Found? :: r.hash
  }

  /** The non-`None` results of a stream, in stream order. */
  function Matches(stream: seq<TaskResult>): seq<Accepted>
    decreases |stream|
  {
    if stream == [] then []
    else
      var prev := Matches(stream[..|stream| - 1]);
      match stream[|stream| - 1]
      case Found(p, h) => prev + [Accepted(p, h)]
      case _ => prev
  }

  /** No two entries share a fingerprint. */
  predicate DistinctHashes(acc: seq<Accepted>) {
    forall i, j :: 0 <= i < j < |acc| ==> acc[i].hash != acc[j].hash
  }

  /** `a` is obtained from `b` by deleting elements. */
  predicate IsSubsequence<T(==)>(a: seq<T>, b: seq<T>)
    decreases |b|
  {
    if b == [] then a == []
    else
      IsSubsequence(a, b[..|b| - 1]) ||
      (a != [] && a[|a| - 1] == b[|b| - 1] && IsSubsequence(a[..|a| - 1], b[..|b| - 1]))
  }

  /**
   * The accepted results after consuming `stream` from the left: a result whose
   * fingerprint was already accepted is dropped, `None` is skipped.
   */
  function Accept(stream: seq<TaskResult>): seq<Accepted>
    decreases |stream|
  {
    if stream == [] then []
    else
      var prev := Accept(stream[..|stream| - 1]);
      match stream[|stream| - 1]
      case Found(p, h) => if h in HashesOf(prev) then prev else prev + [Accepted(p, h)]
      case _ => prev
  }

  /**
   * What consuming the whole stream returns: the accepted paths, unless some
   * result is an exception, which the consumer re-raises.
   */
  function Collected(stream: seq<TaskResult>): ScanOutcome {
    if Failed in stream then Aborted else Completed(PathsOf(Accept(stream)))
  }

  /** The `i`-th result is the first one in the stream that carries hash `h`. */
  predicate FirstWithHash(stream: seq<TaskResult>, i: int, p: Path, h: Hash) {
    0 <= i < |stream| && stream[i] == Found(p, h) && h !in FoundHashes(stream[..i])
  }

  // ---------------------------------------------------------------------------
  // One step of the consumer

  lemma HashesOfSnoc(acc: seq<Accepted>, a: Accepted)
    ensures HashesOf(acc + [a]) == HashesOf(acc) + {a.hash}
  {
    assert forall x :: x in acc + [a] <==> x in acc || x == a;
  }

  lemma FoundHashesSnoc(stream: seq<TaskResult>, r: TaskResult)
    ensures FoundHashes(stream + [r]) == FoundHashes(stream) + (if r.Found? then {r.hash} else {})
  {
    assert forall x :: x in stream + [r] <==> x in stream || x == r;
  }

  /** A `None` result leaves the match set as it was. */
  lemma NoMatchChangesNothing(stream: seq<TaskResult>)
    ensures Accept(stream + [NoMatch]) == Accept(stream)
  {
    assert (stream + [NoMatch])[..|stream|] == stream;
  }

  /** A result whose fingerprint was already seen is dropped. */
  lemma SeenHashDropped(stream: seq<TaskResult>, p: Path, h: Hash)
    requires h in HashesOf(Accept(stream))
    ensures Accept(stream + [Found(p, h)]) == Accept(stream)
  {
    assert (stream + [Found(p, h)])[..|stream|] == stream;
  }

  /** A result with a new fingerprint is appended. */
  lemma NewHashAppended(stream: seq<TaskResult>, p: Path, h: Hash)
    requires h !in HashesOf(Accept(stream))
    ensures Accept(stream + [Found(p, h)]) == Accept(stream) + [Accepted(p, h)]
  {
    assert (stream + [Found(p, h)])[..|stream|] == stream;
  }

  // ---------------------------------------------------------------------------
  // Invariants of the match set

  /** The seen set is exactly the set of fingerprints of all non-`None` results so far. */
  lemma {:induction false} AcceptedHashes(stream: seq<TaskResult>)
    ensures HashesOf(Accept(stream)) == FoundHashes(stream)
    decreases |stream|
  {
    if stream != [] {
      var init, last := stream[..|stream| - 1], stream[|stream| - 1];
      assert stream == init + [last];
      AcceptedHashes(init);
      FoundHashesSnoc(init, last);
      if last.Found? && last.hash !in HashesOf(Accept(init)) {
        HashesOfSnoc(Accept(init), Accepted(last.path, last.hash));
      }
    }
  }

  /** No two accepted paths share a fingerprint. */
  lemma {:induction false} AcceptedDistinct(stream: seq<TaskResult>)
    ensures DistinctHashes(Accept(stream))
    decreases |stream|
  {
    if stream != [] {
      var init, last := stream[..|stream| - 1], stream[|stream| - 1];
      AcceptedDistinct(init);
      var prev := Accept(init);
      if last.Found? && last.hash !in HashesOf(prev) {
        forall i | 0 <= i < |prev| ensures prev[i].hash != last.hash {
          assert prev[i] in prev;
        }
      }
    }
  }

  lemma {:induction false} DistinctCount(acc: seq<Accepted>)
    requires DistinctHashes(acc)
    ensures |HashesOf(acc)| == |acc|
    decreases |acc|
  {
    if acc != [] {
      var init, last := acc[..|acc| - 1], acc[|acc| - 1];
      assert acc == init + [last];
      DistinctCount(init);
      HashesOfSnoc(init, last);
    }
  }

  /** The number of accepted paths is the number of distinct fingerprints among the results. */
  lemma AcceptedCount(stream: seq<TaskResult>)
    ensures |Accept(stream)| == |FoundHashes(stream)|
  {
    AcceptedDistinct(stream);
    DistinctCount(Accept(stream));
    AcceptedHashes(stream);
  }

  /** The accepted results are a subsequence, in stream order, of the non-`None` results. */
  lemma {:induction false} AcceptedSubsequence(stream: seq<TaskResult>)
    ensures IsSubsequence(Accept(stream), Matches(stream))
    decreases |stream|
  {
    if stream != [] {
      var init, last := stream[..|stream| - 1], stream[|stream| - 1];
      AcceptedSubsequence(init);
      var acc, ms := Accept(stream), Matches(stream);
      if last.Found? {
        assert ms[..|ms| - 1] == Matches(init);
        if last.hash !in HashesOf(Accept(init)) {
          assert acc[..|acc| - 1] == Accept(init);
        }
      }
    }
  }

  /** Deleting elements commutes with taking the paths. */
  lemma {:induction false} PathsOfSubsequence(a: seq<Accepted>, b: seq<Accepted>)
    requires IsSubsequence(a, b)
    ensures IsSubsequence(PathsOf(a), PathsOf(b))
    decreases |b|
  {
    if b != [] {
      assert PathsOf(b)[..|b| - 1] == PathsOf(b[..|b| - 1]);
      if IsSubsequence(a, b[..|b| - 1]) {
        PathsOfSubsequence(a, b[..|b| - 1]);
      } else {
        assert PathsOf(a)[..|a| - 1] == PathsOf(a[..|a| - 1]);
        PathsOfSubsequence(a[..|a| - 1], b[..|b| - 1]);
      }
    }
  }

  /** The accepted paths are a subsequence, in stream order, of the paths of the non-`None` results. */
  lemma AcceptedPathsSubsequence(stream: seq<TaskResult>)
    ensures IsSubsequence(PathsOf(Accept(stream)), PathsOf(Matches(stream)))
  {
    AcceptedSubsequence(stream);
    PathsOfSubsequence(Accept(stream), Matches(stream));
  }

  /**
   * First occurrence wins: `(p, h)` is accepted exactly when some result
   * `(p, h)` is the first one in the stream that carries `h`.
   */
  lemma {:induction false} AcceptedIffFirst(stream: seq<TaskResult>, p: Path, h: Hash)
    ensures Accepted(p, h) in Accept(stream) <==> exists i :: FirstWithHash(stream, i, p, h)
    decreases |stream|
  {
    if stream != [] {
      var n := |stream| - 1;
      var init, last := stream[..n], stream[n];
      AcceptedIffFirst(init, p, h);
      AcceptedHashes(init);
      var prev := Accept(init);
      assert stream[..n] == init;
      if Accepted(p, h) in Accept(stream) {
        if Accepted(p, h) in prev {
          var i :| FirstWithHash(init, i, p, h);
          assert init[..i] == stream[..i];
          assert FirstWithHash(stream, i, p, h);
        } else {
          assert FirstWithHash(stream, n, p, h);
        }
      }
      if i :| FirstWithHash(stream, i, p, h) {
        if i < n {
          assert init[..i] == stream[..i];
          assert FirstWithHash(init, i, p, h);
        } else {
          assert last == Found(p, h) && h !in HashesOf(prev);
        }
      }
    }
  }

  /** Results with the same elements, in whatever order, accept the same fingerprints, as many of them. */
  lemma OrderIndependentHashes(s1: seq<TaskResult>, s2: seq<TaskResult>)
    requires forall r :: r in s1 <==> r in s2
    ensures HashesOf(Accept(s1)) == HashesOf(Accept(s2))
    ensures |Accept(s1)| == |Accept(s2)|
    ensures Collected(s1).Aborted? <==> Collected(s2).Aborted?
  {
    AcceptedHashes(s1);
    AcceptedHashes(s2);
    assert FoundHashes(s1) == FoundHashes(s2);
    AcceptedCount(s1);
    AcceptedCount(s2);
  }

  /** In particular any permutation of the results accepts the same fingerprints. */
  lemma PermutationIndependentHashes(s1: seq<TaskResult>, s2: seq<TaskResult>)
    requires multiset(s1) == multiset(s2)
    ensures HashesOf(Accept(s1)) == HashesOf(Accept(s2))
    ensures |Accept(s1)| == |Accept(s2)|
  {
    assert forall r :: r in s1 <==> r in multiset(s1);
    assert forall r :: r in s2 <==> r in multiset(s2);
    OrderIndependentHashes(s1, s2);
  }

  /** A stream with no match accepts nothing. */
  lemma {:induction false} AllNoMatchIsEmpty(stream: seq<TaskResult>)
    requires forall k :: 0 <= k < |stream| ==> stream[k] == NoMatch
    ensures Collected(stream) == Completed([])
    decreases |stream|
  {
    if stream != [] {
      AllNoMatchIsEmpty(stream[..|stream| - 1]);
    }
  }

  /** Two results with the same fingerprint, then `None`: only the first path is kept. */
  lemma DuplicateExample(a: Path, b: Path, h1: Hash)
    ensures Collected([Found(a, h1), Found(b, h1), NoMatch]) == Completed([a])
  {
    var s := [Found(a, h1), Found(b, h1), NoMatch];
    assert Failed !in s;
    assert s[..2][..1] == [Found(a, h1)];
    assert s[..2] == [Found(a, h1), Found(b, h1)];
    assert Accept([Found(a, h1)]) == [Accepted(a, h1)];
    assert h1 in HashesOf([Accepted(a, h1)]);
    assert Accept(s[..2]) == [Accepted(a, h1)];
    assert Accept(s) == [Accepted(a, h1)];
    assert PathsOf([Accepted(a, h1)]) == [a];
  }
}
