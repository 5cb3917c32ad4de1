/**
 * The three `str` operations the repository filter relies on: `lower()`,
 * `strip()` and the substring test `needle in hay`.
 */
module Strings {

  /** `str.isspace()` for one character: the characters Python treats as whitespace. */
  predicate IsSpace(c: char) {
    ('\t' <= c <= '\r') || ('\U{1c}' <= c <= ' ') || c == '\U{85}' || c == '\U{a0}'
    || c == '\U{1680}' || ('\U{2000}' <= c <= '\U{200a}') || c == '\U{2028}' || c == '\U{2029}'
    || c == '\U{202f}' || c == '\U{205f}' || c == '\U{3000}'
  }

  predicate IsUpper(c: char) {
    ('A' <= c <= 'Z') || ('\U{c0}' <= c <= '\U{de}' && c != '\U{d7}')
  }

  /** Lower-case mapping of the Basic Latin and Latin-1 letters. */
  function LowerChar(c: char): (r: char)
    ensures !IsUpper(r)
    ensures IsUpper(c) <==> r != c
  {
    if IsUpper(c) then (c as int + 32) as char else c
  }

  /** `s.lower()`. */
  function Lower(s: string): (r: string)
    ensures |r| == |s|
    ensures forall i :: 0 <= i < |s| ==> r[i] == LowerChar(s[i])
  {
    seq(|s|, i requires 0 <= i < |s| => LowerChar(s[i]))
  }

  /** Lower-casing twice changes nothing more. */
  lemma LowerIdempotent(s: string)
    ensures Lower(Lower(s)) == Lower(s)
  {
  }

  function StripLeft(s: string): (r: string)
    ensures |r| <= |s| && r == s[|s| - |r|..]
    ensures forall k :: 0 <= k < |s| - |r| ==> IsSpace(s[k])
    ensures r != [] ==> !IsSpace(r[0])
    decreases |s|
  {
    if s != [] && IsSpace(s[0]) then StripLeft(s[1..]) else s
  }

  function StripRight(s: string): (r: string)
    ensures |r| <= |s| && r == s[..|r|]
    ensures forall k :: |r| <= k < |s| ==> IsSpace(s[k])
    ensures r != [] ==> !IsSpace(r[|r| - 1])
    decreases |s|
  {
    if s != [] && IsSpace(s[|s| - 1]) then StripRight(s[..|s| - 1]) else s
  }

  /** `s.strip()`: neither starts nor ends with whitespace. */
  function Strip(s: string): (r: string)
    ensures r != [] ==> !IsSpace(r[0]) && !IsSpace(r[|r| - 1])
  {
    StripRight(StripLeft(s))
  }

  /**
   * What `strip` leaves is the slice `s[i..j]` after dropping only
   * whitespace: the characters before `i` and from `j` on are all whitespace.
   */
  lemma StripSlice(s: string)
    ensures exists i, j :: 0 <= i <= j <= |s| && Strip(s) == s[i..j]
                          && (forall k :: 0 <= k < i ==> IsSpace(s[k]))
                          && (forall k :: j <= k < |s| ==> IsSpace(s[k]))
  {
    var i, j := StripBounds(s);
  }

  /** The bounds of the slice `strip` keeps. */
  lemma StripBounds(s: string) returns (i: nat, j: nat)
    ensures i <= j <= |s| && Strip(s) == s[i..j]
    ensures forall k :: 0 <= k < i ==> IsSpace(s[k])
    ensures forall k :: j <= k < |s| ==> IsSpace(s[k])
  {
    i := |s| - |StripLeft(s)|;
    j := StripRightSlice(s, i);
  }

  /**
   * Stripping the right end of the suffix `s[i..]` keeps a slice `s[i..j]`
   * and drops only whitespace.
   */
  lemma StripRightSlice(s: string, i: nat) returns (j: nat)
    requires i <= |s|
    ensures i <= j <= |s| && StripRight(s[i..]) == s[i..j]
    ensures forall k :: j <= k < |s| ==> IsSpace(s[k])
  {
    var l := s[i..];
    var r := StripRight(l);
    j := i + |r|;
    forall k | 0 <= k < |r|
      ensures r[k] == s[i + k]
    {
      assert r[k] == l[k];
    }
    assert r == s[i..j];
    forall k | j <= k < |s|
      ensures IsSpace(s[k])
    {
      assert s[k] == l[k - i];
    }
  }

  /** A string made only of whitespace strips to the empty string. */
  lemma StripBlank(s: string)
    requires forall k :: 0 <= k < |s| ==> IsSpace(s[k])
    ensures Strip(s) == ""
  {
  }

  /** `needle in hay`: the needle is a prefix of some suffix of the hay. */
  predicate Contains(hay: string, needle: string)
    decreases |hay|
  {
    needle <= hay || (hay != [] && Contains(hay[1..], needle))
  }

  /** The needle occurs in the hay at offset `i`. */
  predicate OccursAt(hay: string, needle: string, i: int) {
    0 <= i <= |hay| - |needle| && hay[i..i + |needle|] == needle
  }

  /** `Contains` agrees with "the needle occurs at some offset of the hay". */
  lemma {:induction false} ContainsIff(hay: string, needle: string)
    ensures Contains(hay, needle) <==> exists i :: OccursAt(hay, needle, i)
    decreases |hay|
  {
    if hay != [] {
      ContainsIff(hay[1..], needle);
      if needle <= hay {
        assert OccursAt(hay, needle, 0);
      }
      if Contains(hay[1..], needle) {
        var i :| OccursAt(hay[1..], needle, i);
        assert OccursAt(hay, needle, i + 1);
      }
      if exists i :: OccursAt(hay, needle, i) {
        var i :| OccursAt(hay, needle, i);
        if i > 0 {
          assert OccursAt(hay[1..], needle, i - 1);
        } else {
          assert needle <= hay;
        }
      }
    } else if needle == [] {
      assert OccursAt(hay, needle, 0);
    }
  }

  /** The empty string occurs in every string. */
  lemma ContainsEmpty(hay: string)
    ensures Contains(hay, "")
  {
  }

  /** Occurrence is transitive: a piece of a piece of the hay is a piece of the hay. */
  lemma ContainsTransitive(hay: string, mid: string, needle: string)
    requires Contains(hay, mid) && Contains(mid, needle)
    ensures Contains(hay, needle)
  {
    ContainsIff(hay, mid);
    ContainsIff(mid, needle);
    var i :| OccursAt(hay, mid, i);
    var j :| OccursAt(mid, needle, j);
    forall k | 0 <= k < |needle|
      ensures hay[i + j + k] == needle[k]
    {
      assert needle[k] == mid[j + k] == hay[i..i + |mid|][j + k];
    }
    assert OccursAt(hay, needle, i + j);
    ContainsIff(hay, needle);
  }
}
