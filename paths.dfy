/**
 * POSIX path handling used by the scanner: `os.path.join` for building the
 * candidate paths and `os.path.splitext` for the extension test.
 */
module Paths {
  import opened External

  /** Index of the last occurrence of `c` in `s`, or -1 (Python's `str.rfind`). */
  function LastIndexOf(s: string, c: char): (r: int)
    ensures -1 <= r < |s|
    ensures r >= 0 ==> s[r] == c
    ensures forall i :: r < i < |s| ==> s[i] != c
    decreases |s|
  {
    if s == [] then -1
    else if s[|s| - 1] == c then |s| - 1
    else LastIndexOf(s[..|s| - 1], c)
  }

  /** The contract of `LastIndexOf` pins its value down. */
  lemma LastIndexOfUnique(s: string, c: char, r: int)
    requires -1 <= r < |s|
    requires r >= 0 ==> s[r] == c
    requires forall i :: r < i < |s| ==> s[i] != c
    ensures r == LastIndexOf(s, c)
  {
  }

  /** The last `c` of `a + b` lies in `b` when `b` has one, otherwise it is the last one of `a`. */
  lemma LastIndexOfAppend(a: string, b: string, c: char)
    ensures LastIndexOf(a + b, c) ==
      (if LastIndexOf(b, c) >= 0 then |a| + LastIndexOf(b, c) else LastIndexOf(a, c))
  {
    var s := a + b;
    var rb, ra := LastIndexOf(b, c), LastIndexOf(a, c);
    if rb >= 0 {
      assert forall i :: |a| + rb < i < |s| ==> s[i] == b[i - |a|];
      LastIndexOfUnique(s, c, |a| + rb);
    } else {
      assert forall i :: |a| <= i < |s| ==> s[i] == b[i - |a|];
      LastIndexOfUnique(s, c, ra);
    }
  }

  /** Some character of `p[lo..hi]` is not a dot. */
  predicate HasNonDot(p: string, lo: int, hi: int) {
    exists i :: lo <= i < hi && 0 <= i < |p| && p[i] != '.'
  }

  /**
   * `os.path.splitext(p)[1]` on POSIX: the part of the last path component from
   * its last dot on, unless that component has no dot or consists only of dots
   * before it (a leading-dot name such as ".bashrc" has no extension).
   */
  function Extension(p: Path): (ext: string)
    ensures ext == "" || (ext[0] == '.' && '.' !in ext[1..] && '/' !in ext)
    ensures |ext| <= |p| && ext == p[|p| - |ext|..]
    ensures ext != "" ==> HasNonDot(p, LastIndexOf(p, '/') + 1, |p| - |ext|)
  {
    var sep := LastIndexOf(p, '/');
    var dot := LastIndexOf(p, '.');
    if dot > sep && HasNonDot(p, sep + 1, dot) then p[dot..] else ""
  }

  /**
   * A dot in the last path component with a non-dot character before it (within
   * that component) gives a non-empty extension, taken from the last dot.
   */
  lemma ExtensionFromLastDot(p: Path, k: int)
    requires LastIndexOf(p, '/') < k < |p| && p[k] == '.'
    requires HasNonDot(p, LastIndexOf(p, '/') + 1, k)
    ensures Extension(p) == p[LastIndexOf(p, '.')..] && Extension(p) != ""
  {
    var i :| LastIndexOf(p, '/') + 1 <= i < k && 0 <= i < |p| && p[i] != '.';
    assert i < LastIndexOf(p, '.');
  }

  /**
   * `os.path.join(root, name)` on POSIX: an absolute `name` replaces `root`;
   * otherwise a '/' is put between them unless `root` is empty or already ends with one.
   */
  function Join(root: Path, name: string): (r: Path)
    ensures |name| > 0 && name[0] == '/' ==> r == name
    ensures !(|name| > 0 && name[0] == '/') ==>
      r == (if root == [] || root[|root| - 1] == '/' then root else root + "/") + name
    ensures '/' !in name ==> exists prefix :: r == prefix + name && (prefix == "" || prefix[|prefix| - 1] == '/')
  {
    if |name| > 0 && name[0] == '/' then name
    else if root == [] || root[|root| - 1] == '/' then
      root + name
    else root + "/" + name
  }

  /** Putting a directory in front of a file name does not change its extension. */
  lemma ExtensionOfLastComponent(prefix: string, name: string)
    requires prefix == "" || prefix[|prefix| - 1] == '/'
    requires '/' !in name
    ensures Extension(prefix + name) == Extension(name)
  {
    if prefix == "" {
      assert prefix + name == name;
      return;
    }
    var p := prefix + name;
    LastIndexOfAppend(prefix, name, '/');
    LastIndexOfAppend(prefix, name, '.');
    var sepN := LastIndexOf(name, '/');
    assert sepN == -1;
    var sep := LastIndexOf(p, '/');
    assert sep == |prefix| - 1;
    var dotN := LastIndexOf(name, '.');
    var dot := LastIndexOf(p, '.');
    if dotN >= 0 {
      assert dot == |prefix| + dotN;
      assert p[dot..] == name[dotN..];
      if HasNonDot(name, 0, dotN) {
        var i :| 0 <= i < dotN && 0 <= i < |name| && name[i] != '.';
        assert p[|prefix| + i] == name[i];
      }
      if HasNonDot(p, sep + 1, dot) {
        var i :| sep + 1 <= i < dot && 0 <= i < |p| && p[i] != '.';
        assert name[i - |prefix|] == p[i];
      }
    } else {
      assert dot == LastIndexOf(prefix, '.');
      assert prefix[|prefix| - 1] != '.';
      assert dot < sep;
    }
  }

  /** The extension of a joined path is that of the file name joined. */
  lemma JoinKeepsExtension(root: Path, name: string)
    requires '/' !in name
    ensures Extension(Join(root, name)) == Extension(name)
  {
    var prefix :| Join(root, name) == prefix + name && (prefix == "" || prefix[|prefix| - 1] == '/');
    ExtensionOfLastComponent(prefix, name);
  }

  /** `splitext` takes the extension from the last dot of the last path component. */
  lemma ExtensionExamples()
    ensures Extension("file.jpg") == ".jpg"
    ensures Extension("/folder/c.txt") == ".txt"
    ensures Extension("archive.tar.gz") == ".gz"
    ensures Extension("photo.JPG") == ".JPG"
  {
    LastIndexOfUnique("file.jpg", '.', 4);
    LastIndexOfUnique("file.jpg", '/', -1);
    assert HasNonDot("file.jpg", 0, 4) by { assert "file.jpg"[0] != '.'; }
    LastIndexOfUnique("/folder/c.txt", '.', 9);
    LastIndexOfUnique("/folder/c.txt", '/', 7);
    assert HasNonDot("/folder/c.txt", 8, 9) by { assert "/folder/c.txt"[8] != '.'; }
    LastIndexOfUnique("archive.tar.gz", '.', 11);
    LastIndexOfUnique("archive.tar.gz", '/', -1);
    assert HasNonDot("archive.tar.gz", 0, 11) by { assert "archive.tar.gz"[0] != '.'; }
    LastIndexOfUnique("photo.JPG", '.', 5);
    LastIndexOfUnique("photo.JPG", '/', -1);
    assert HasNonDot("photo.JPG", 0, 5) by { assert "photo.JPG"[0] != '.'; }
  }

  /** A name made of a leading dot and no other, and a dot in a directory name, give no extension. */
  lemma NoExtensionExamples()
    ensures Extension(".hidden") == ""
    ensures Extension("dir.d/file") == ""
  {
    LastIndexOfUnique(".hidden", '.', 0);
    LastIndexOfUnique(".hidden", '/', -1);
    LastIndexOfUnique("dir.d/file", '.', 3);
    LastIndexOfUnique("dir.d/file", '/', 5);
  }
}
