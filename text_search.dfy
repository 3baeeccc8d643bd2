/** The string operations the task search uses: `toLowerCase` (here an
    ASCII case fold) and `includes` (substring containment). */
module TextSearch {

  /** `toLowerCase` on one character: an ASCII capital becomes its own
      small letter, 32 code points further on; everything else is kept. */
  function LowerChar(c: char): (d: char)
    ensures 'A' <= c <= 'Z' ==> d as int == c as int + 32 && 'a' <= d <= 'z'
    ensures !('A' <= c <= 'Z') ==> d == c
  {
    if 'A' <= c <= 'Z' then (c as int + 32) as char else c
  }

  /** `s.toLowerCase()` restricted to ASCII letters: no upper-case ASCII
      letter remains, and the length is unchanged. */
  function Lower(s: string): (r: string)
    ensures |r| == |s|
    ensures forall k :: 0 <= k < |r| ==> !('A' <= r[k] <= 'Z')
    ensures forall k :: 0 <= k < |s| ==> r[k] == LowerChar(s[k])
  {
    if s == [] then [] else [LowerChar(s[0])] + Lower(s[1..])
  }

  /** Folding twice is folding once. */
  lemma {:induction false} LowerIdempotent(s: string)
    ensures Lower(Lower(s)) == Lower(s)
  {
    if s != [] {
      LowerIdempotent(s[1..]);
      assert Lower(s)[1..] == Lower(s[1..]);
    }
  }

  /** `needle` occurs in `hay` starting at offset `i`. */
  predicate OccursAt(hay: string, needle: string, i: int)
  {
    0 <= i <= |hay| - |needle| && hay[i..i + |needle|] == needle
  }

  /** `hay.includes(needle)`: `needle` occurs in `hay` at some offset. The
      empty string is included in every string, a prefix is included, and
      nothing longer than `hay` is. */
  predicate Includes(hay: string, needle: string): (r: bool)
    ensures needle == [] ==> r
    ensures |needle| <= |hay| && hay[..|needle|] == needle ==> r
    ensures r ==> |needle| <= |hay|
  {
    assert |needle| <= |hay| && hay[..|needle|] == needle ==> OccursAt(hay, needle, 0);
    exists i | 0 <= i <= |hay| - |needle| :: OccursAt(hay, needle, i)
  }

  /** Case-insensitive containment, as the search box means it: it holds
      whenever the query occurs with the exact case, and never for a query
      longer than the text. */
  predicate IncludesIgnoringCase(hay: string, needle: string): (r: bool)
    ensures Includes(hay, needle) ==> r
    ensures r ==> |needle| <= |hay|
  {
    FoldKeepsOccurrences(hay, needle);
    Includes(Lower(hay), Lower(needle))
  }

  /** An occurrence of `needle` in `hay` is, after folding both, an
      occurrence at the same offset. */
  lemma FoldKeepsOccurrences(hay: string, needle: string)
    ensures forall i :: OccursAt(hay, needle, i) ==> OccursAt(Lower(hay), Lower(needle), i)
  {
    forall i | OccursAt(hay, needle, i)
      ensures OccursAt(Lower(hay), Lower(needle), i)
    {
      assert Lower(hay)[i..i + |needle|] == Lower(needle) by {
        forall k | 0 <= k < |needle|
          ensures Lower(hay)[i..i + |needle|][k] == Lower(needle)[k]
        {
          assert hay[i + k] == needle[k];
        }
      }
    }
  }

  /** Two queries that agree letter by letter up to case match the same
      texts, and two texts that agree up to case are matched by the same
      queries. */
  lemma IgnoringCaseAgrees(hay1: string, hay2: string, q1: string, q2: string)
    requires |hay1| == |hay2| && forall k :: 0 <= k < |hay1| ==> LowerChar(hay1[k]) == LowerChar(hay2[k])
    requires |q1| == |q2| && forall k :: 0 <= k < |q1| ==> LowerChar(q1[k]) == LowerChar(q2[k])
    ensures IncludesIgnoringCase(hay1, q1) == IncludesIgnoringCase(hay2, q2)
  {
    assert Lower(q1) == Lower(q2);
    assert Lower(hay1) == Lower(hay2);
  }

  /** In particular a query, or a text, matches as its own folded form does. */
  lemma IgnoringCaseInvariant(hay: string, needle: string)
    ensures IncludesIgnoringCase(hay, needle) == IncludesIgnoringCase(hay, Lower(needle))
    ensures IncludesIgnoringCase(hay, needle) == IncludesIgnoringCase(Lower(hay), needle)
  {
    LowerIdempotent(needle);
    LowerIdempotent(hay);
  }
}
