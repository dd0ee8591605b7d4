/**
 String helpers the header analysis relies on: ASCII lower-casing (the
 model's stand-in for `str.lower`) and substring search (the model of the
 `in` operator on strings).
 */
module Strings {

  /** True for the 26 upper-case ASCII letters. */
  predicate IsAsciiUpper(c: char)
  {
    'A' <= c <= 'Z'
  }

  /** Lower-cases one character: ASCII letters move to lower case, everything else is kept. */
  function AsciiLower(c: char): (r: char)
    ensures !IsAsciiUpper(r)
    ensures 'a' <= r <= 'z' <==> ('a' <= c <= 'z' || IsAsciiUpper(c))
  {
    if IsAsciiUpper(c) then (c as int + 32) as char else c
  }

  /** Lower-cases a whole string, character by character. */
  function Lower(s: string): (r: string)
    ensures |r| == |s|
    ensures forall i :: 0 <= i < |s| ==> r[i] == AsciiLower(s[i])
  {
    if s == [] then [] else [AsciiLower(s[0])] + Lower(s[1..])
  }

  /**
   `needle` is a substring of `haystack` (Python's `needle in haystack`):
   it is a prefix of the haystack or of one of its suffixes.
   */
  predicate Contains(haystack: string, needle: string)
    ensures needle == [] ==> Contains(haystack, needle)
    ensures Contains(haystack, needle) ==> |needle| <= |haystack|
    decreases |haystack|
  {
    needle <= haystack || (haystack != [] && Contains(haystack[1..], needle))
  }

  /** Reference definition of an occurrence: `needle` starts at index `i` of `haystack`. */
  ghost predicate OccursAt(haystack: string, needle: string, i: int)
  {
    0 <= i && i + |needle| <= |haystack| && haystack[i..i + |needle|] == needle
  }

  /** Every occurrence is found by the recursive search. */
  lemma {:induction false} OccursImpliesContains(haystack: string, needle: string, i: int)
    requires OccursAt(haystack, needle, i)
    ensures Contains(haystack, needle)
    decreases i
  {
    if i == 0 {
      assert needle <= haystack;
    } else {
      assert haystack[1..][i - 1..i - 1 + |needle|] == haystack[i..i + |needle|];
      OccursImpliesContains(haystack[1..], needle, i - 1);
    }
  }

  /** The recursive search only succeeds where there is an occurrence; returns its index. */
  lemma {:induction false} ContainsImpliesOccurs(haystack: string, needle: string) returns (i: int)
    requires Contains(haystack, needle)
    ensures OccursAt(haystack, needle, i)
    decreases |haystack|
  {
    if needle <= haystack {
      i := 0;
    } else {
      var j := ContainsImpliesOccurs(haystack[1..], needle);
      assert haystack[j + 1..j + 1 + |needle|] == haystack[1..][j..j + |needle|];
      i := j + 1;
    }
  }

  /** The recursive search agrees with the index-based definition, in both directions. */
  lemma ContainsIffOccurs(haystack: string, needle: string)
    ensures Contains(haystack, needle) <==> exists i :: OccursAt(haystack, needle, i)
  {
    if Contains(haystack, needle) {
      var i := ContainsImpliesOccurs(haystack, needle);
    }
    if i :| OccursAt(haystack, needle, i) {
      OccursImpliesContains(haystack, needle, i);
    }
  }

  /** A haystack that contains a string also contains every prefix of that string. */
  lemma {:induction false} ContainsPrefix(haystack: string, prefix: string, rest: string)
    requires Contains(haystack, prefix + rest)
    ensures Contains(haystack, prefix)
    decreases |haystack|
  {
    if prefix + rest <= haystack {
      assert prefix <= haystack by {
        assert forall k :: 0 <= k < |prefix| ==> prefix[k] == (prefix + rest)[k];
      }
    } else {
      ContainsPrefix(haystack[1..], prefix, rest);
    }
  }

  /** A string holding a character the haystack lacks is not a substring of it. */
  lemma {:induction false} AbsentCharNotContained(haystack: string, needle: string, c: char)
    requires c in needle && c !in haystack
    ensures !Contains(haystack, needle)
    decreases |haystack|
  {
    var j :| 0 <= j < |needle| && needle[j] == c;
    assert j >= |haystack| || haystack[j] != needle[j];
    if haystack != [] {
      assert c !in haystack[1..] by {
        assert forall k :: 0 <= k < |haystack| - 1 ==> haystack[1..][k] == haystack[k + 1];
      }
      AbsentCharNotContained(haystack[1..], needle, c);
    }
  }

  /** A string without upper-case ASCII letters is its own lower-case form. */
  lemma LowerIdentity(s: string)
    requires forall i :: 0 <= i < |s| ==> !IsAsciiUpper(s[i])
    ensures Lower(s) == s
  {
    assert forall i :: 0 <= i < |s| ==> Lower(s)[i] == s[i];
  }

  /**
   A string that is not a prefix of the haystack, and whose first character
   does not occur later in the haystack, is not a substring of it.
   */
  lemma NotContainedPastStart(haystack: string, needle: string)
    requires needle != [] && !(needle <= haystack)
    requires haystack != [] ==> needle[0] !in haystack[1..]
    ensures !Contains(haystack, needle)
  {
    if haystack != [] {
      AbsentCharNotContained(haystack[1..], needle, needle[0]);
    }
  }

  /** Lower-casing introduces no character other than a lower-case letter. */
  lemma LowerAbsent(s: string, c: char)
    requires c !in s && !('a' <= c <= 'z')
    ensures c !in Lower(s)
  {
  }
}
