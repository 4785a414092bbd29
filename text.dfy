/**
 * The string operations the phrase matcher and the validity filter rely on:
 * lower-casing (`str.lower`, restricted to ASCII) and substring containment
 * (`needle in haystack`).
 */
module Text {
  predicate IsUpper(c: char) {
    'A' <= c <= 'Z'
  }

  function LowerChar(c: char): (r: char)
    ensures !IsUpper(r)
    ensures IsUpper(c) ==> r as int == c as int + 32
    ensures !IsUpper(c) ==> r == c
  {
    if IsUpper(c) then (c as int + 32) as char else c
  }

  /** ASCII lower-casing: every upper-case letter is replaced by its lower-case form. */
  function Lower(s: string): (r: string)
    ensures |r| == |s|
    ensures forall i {:trigger r[i]} :: 0 <= i < |r| ==> !IsUpper(r[i])
    ensures forall i {:trigger r[i]} :: 0 <= i < |r| ==>
      if IsUpper(s[i]) then r[i] as int == s[i] as int + 32 else r[i] == s[i]
  {
    seq(|s|, i requires 0 <= i < |s| => LowerChar(s[i]))
  }

  /** A string without upper-case letters is its own lower-case form. */
  lemma LowerWithoutUpper(s: string)
    requires forall i :: 0 <= i < |s| ==> !IsUpper(s[i])
    ensures Lower(s) == s
  {
  }

  /** Lower-casing twice changes nothing more than lower-casing once. */
  lemma LowerIdempotent(s: string)
    ensures Lower(Lower(s)) == Lower(s)
  {
  }

  /** `needle` occurs in `hay` starting at offset `k`. */
  predicate OccursAt(needle: string, hay: string, k: int) {
    0 <= k && k + |needle| <= |hay| && hay[k..k + |needle|] == needle
  }

  predicate StartsWith(s: string, prefix: string) {
    |prefix| <= |s| && s[..|prefix|] == prefix
  }

  /** Python's `needle in hay` for strings: try every start position from the left. */
  function Occurs(needle: string, hay: string): bool
    decreases |hay|
  {
    StartsWith(hay, needle) || (hay != [] && Occurs(needle, hay[1..]))
  }

  /** The scanning search finds the needle exactly when it occurs at some offset. */
  lemma {:induction false} OccursIff(needle: string, hay: string)
    ensures Occurs(needle, hay) <==> exists k :: OccursAt(needle, hay, k)
    decreases |hay|
  {
    if StartsWith(hay, needle) {
      assert OccursAt(needle, hay, 0);
    } else if hay == [] {
      assert needle != [];
    } else {
      OccursIff(needle, hay[1..]);
      if Occurs(needle, hay[1..]) {
        var k :| OccursAt(needle, hay[1..], k);
        assert hay[1..][k..k + |needle|] == hay[k + 1..k + 1 + |needle|];
        assert OccursAt(needle, hay, k + 1);
      } else {
        forall k | OccursAt(needle, hay, k) ensures false {
          assert k != 0;
          var shifted, window := hay[1..][k - 1..k - 1 + |needle|], hay[k..k + |needle|];
          assert forall i :: 0 <= i < |needle| ==> shifted[i] == window[i];
          assert shifted == window;
          assert OccursAt(needle, hay[1..], k - 1);
        }
      }
    }
  }
}
