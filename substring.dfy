/**
 * Case-sensitive substring containment, the meaning of a column's
 * `.contains(needle)` filter on a text column.
 */
module Substring {

  /** `needle` occurs in `hay` at some position. */
  ghost predicate IsSubstring(needle: string, hay: string) {
    exists i, j :: 0 <= i <= j <= |hay| && hay[i..j] == needle
  }

  /** Containment, decided by trying each start position of `hay` in turn. */
  function Contains(hay: string, needle: string): (r: bool)
    ensures needle == [] ==> r
    ensures r ==> |needle| <= |hay|
    decreases |hay|
  {
    needle <= hay || (hay != [] && Contains(hay[1..], needle))
  }

  /** Whatever `Contains` accepts occurs in `hay`. */
  lemma {:induction false} ContainsSound(hay: string, needle: string)
    requires Contains(hay, needle)
    ensures IsSubstring(needle, hay)
    decreases |hay|
  {
    if needle <= hay {
      assert hay[0..|needle|] == needle;
    } else {
      ContainsSound(hay[1..], needle);
      var i, j :| 0 <= i <= j <= |hay[1..]| && hay[1..][i..j] == needle;
      assert hay[i + 1..j + 1] == needle by {
        assert |hay[i + 1..j + 1]| == |needle|;
        forall k | 0 <= k < |needle|
          ensures hay[i + 1..j + 1][k] == needle[k]
        {
          assert needle[k] == hay[1..][i + k];
        }
      }
    }
  }

  /** Whatever occurs in `hay` at position `i` is accepted by `Contains`. */
  lemma {:induction false} ContainsComplete(hay: string, needle: string, i: nat)
    requires i + |needle| <= |hay| && hay[i..i + |needle|] == needle
    ensures Contains(hay, needle)
    decreases i
  {
    if i == 0 {
      assert needle == hay[..|needle|];
    } else {
      assert hay[1..][i - 1..i - 1 + |needle|] == hay[i..i + |needle|];
      ContainsComplete(hay[1..], needle, i - 1);
    }
  }

  /** `Contains` decides exactly the substring relation, in both directions. */
  lemma ContainsIsSubstring(hay: string, needle: string)
    ensures Contains(hay, needle) <==> IsSubstring(needle, hay)
  {
    if Contains(hay, needle) {
      ContainsSound(hay, needle);
    }
    if IsSubstring(needle, hay) {
      var i, j :| 0 <= i <= j <= |hay| && hay[i..j] == needle;
      ContainsComplete(hay, needle, i);
    }
  }

  /** Every string contains itself, and containment passes to longer strings on either side. */
  lemma {:induction false} ContainsInContext(prefix: string, needle: string, suffix: string)
    ensures Contains(prefix + needle + suffix, needle)
  {
    var hay := prefix + needle + suffix;
    assert hay[|prefix|..|prefix| + |needle|] == needle;
    ContainsIsSubstring(hay, needle);
  }
}
