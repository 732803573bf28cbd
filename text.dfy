/** Lower-casing and substring containment on text: the two string operations
    the search is built from (`str.lower()` and `str.contains`). */
module Text {

  /** The characters that `lower()` changes in this model: the ASCII capitals. */
  predicate IsUpper(c: char) {
    'A' <= c <= 'Z'
  }

  /** `str.lower()` on one character, restricted to ASCII. */
  function LowerChar(c: char): (d: char)
    ensures !IsUpper(d)
    ensures !IsUpper(c) ==> d == c
  {
    if IsUpper(c) then (c as int + 32) as char else c
  }

  /** `str.lower()` on a whole string, character by character. */
  function Lower(s: string): (r: string)
    ensures |r| == |s|
    ensures forall i :: 0 <= i < |r| ==> r[i] == LowerChar(s[i])
  {
    seq(|s|, i requires 0 <= i < |s| => LowerChar(s[i]))
  }

  /** Lower-casing twice is lower-casing once, and its result holds no capitals. */
  lemma LowerIdempotent(s: string)
    ensures Lower(Lower(s)) == Lower(s)
    ensures forall i :: 0 <= i < |s| ==> !IsUpper(Lower(s)[i])
  {
  }

  /** Lower-casing keeps the empty string, and only it, empty. */
  lemma LowerEmpty(s: string)
    ensures Lower(s) == "" <==> s == ""
  {
  }

  /** `needle` occurs in `hay` starting at position `i`. */
  predicate OccursAt(hay: string, needle: string, i: int) {
    0 <= i && i + |needle| <= |hay| && hay[i..i + |needle|] == needle
  }

  /** Plain substring containment (`needle in hay`), scanning `hay` from the left. */
  predicate Contains(hay: string, needle: string)
    ensures Contains(hay, needle) ==> |needle| <= |hay|
    decreases |hay|
  {
    needle <= hay || (|hay| > 0 && Contains(hay[1..], needle))
  }

  /** Whatever the scan finds occurs at some position. */
  lemma {:induction false} ContainsOccurs(hay: string, needle: string) returns (i: nat)
    requires Contains(hay, needle)
    ensures OccursAt(hay, needle, i)
    decreases |hay|
  {
    if needle <= hay {
      i := 0;
    } else {
      var j := ContainsOccurs(hay[1..], needle);
      assert hay[j + 1..j + 1 + |needle|] == hay[1..][j..j + |needle|];
      i := j + 1;
    }
  }

  /** An occurrence at any position is found by the scan. */
  lemma {:induction false} OccursContains(hay: string, needle: string, i: nat)
    requires OccursAt(hay, needle, i)
    ensures Contains(hay, needle)
    decreases i
  {
    if i > 0 {
      assert hay[1..][i - 1..i - 1 + |needle|] == hay[i..i + |needle|];
      OccursContains(hay[1..], needle, i - 1);
    }
  }

  /** The scan finds `needle` exactly when it occurs at some position of `hay`. */
  lemma ContainsIff(hay: string, needle: string)
    ensures Contains(hay, needle) <==> exists i :: OccursAt(hay, needle, i)
  {
    if Contains(hay, needle) {
      var i := ContainsOccurs(hay, needle);
    }
    forall i | OccursAt(hay, needle, i)
      ensures Contains(hay, needle)
    {
      OccursContains(hay, needle, i);
    }
  }

  /** A needle holding a character the haystack lacks is not contained in it. */
  lemma MissingCharNotContained(hay: string, needle: string, k: nat)
    requires k < |needle| && needle[k] !in hay
    ensures !Contains(hay, needle)
  {
    ContainsIff(hay, needle);
  }
}
