/** The two string operations the search filter relies on:
    `toLowerCase` (restricted to ASCII letters) and `includes`. */
module Text {

  predicate IsUpper(c: char) {
    'A' <= c <= 'Z'
  }

  /** Lower-cases one ASCII letter; every other character is kept. */
  function LowerChar(c: char): (r: char)
    ensures !IsUpper(r)
    ensures !IsUpper(c) ==> r == c
    ensures IsUpper(c) ==> r as int == c as int + 32
  {
    if IsUpper(c) then (c as int - 'A' as int + 'a' as int) as char else c
  }

  /** `s.toLowerCase()`, ASCII letters only. */
  function Lower(s: string): (r: string)
    ensures |r| == |s|
    ensures forall i :: 0 <= i < |s| ==> r[i] == LowerChar(s[i])
    ensures forall i :: 0 <= i < |r| ==> !IsUpper(r[i])
  {
    if s == [] then [] else [LowerChar(s[0])] + Lower(s[1..])
  }

  /** `needle` sits in `hay` starting at offset `k`. */
  ghost predicate OccursAt(hay: string, needle: string, k: int) {
    0 <= k && k + |needle| <= |hay| && hay[k..k + |needle|] == needle
  }

  /** `hay.includes(needle)`: tries every offset from the left. */
  function Includes(hay: string, needle: string): bool
    decreases |hay|
  {
    needle <= hay || (hay != [] && Includes(hay[1..], needle))
  }

  /** An occurrence at offset 0 is a prefix. */
  lemma OccursAtZero(hay: string, needle: string)
    ensures OccursAt(hay, needle, 0) <==> needle <= hay
  {
    if needle <= hay {
      assert hay[0..|needle|] == needle;
    }
  }

  /** Dropping the first character moves every occurrence one place to the left. */
  lemma OccursShift(hay: string, needle: string, k: int)
    requires hay != [] && 0 <= k
    ensures OccursAt(hay[1..], needle, k) <==> OccursAt(hay, needle, k + 1)
  {
    if k + |needle| <= |hay| - 1 {
      assert hay[1..][k..k + |needle|] == hay[k + 1..k + 1 + |needle|];
    }
  }

  /** `includes` holds exactly when the needle occurs at some offset;
      in particular the empty needle is included in every string. */
  lemma {:induction false} IncludesIff(hay: string, needle: string)
    ensures Includes(hay, needle) <==> exists k :: OccursAt(hay, needle, k)
    ensures needle == [] ==> Includes(hay, needle)
    decreases |hay|
  {
    OccursAtZero(hay, needle);
    if hay == [] {
      assert forall k :: OccursAt(hay, needle, k) ==> k == 0;
    } else {
      IncludesIff(hay[1..], needle);
      forall k | OccursAt(hay[1..], needle, k) ensures OccursAt(hay, needle, k + 1) {
        OccursShift(hay, needle, k);
      }
      forall k | OccursAt(hay, needle, k) && 1 <= k ensures OccursAt(hay[1..], needle, k - 1) {
        OccursShift(hay, needle, k - 1);
      }
    }
  }
}
