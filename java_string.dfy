/**
 * The two java.lang.String operations the route store relies on:
 * `trim`, which strips every leading and trailing character whose code is
 * at most U+0020, and `equalsIgnoreCase`, approximated by an ASCII case fold.
 */
module JavaString {

  /** Characters that String.trim removes from either end. */
  predicate IsBlank(c: char) {
    c <= ' '
  }

  /** How many characters trim strips from the front of s. */
  function LeadingBlanks(s: string): (n: nat)
    ensures n <= |s|
    ensures forall k :: 0 <= k < n ==> IsBlank(s[k])
    ensures n < |s| ==> !IsBlank(s[n])
  {
    if s == [] || !IsBlank(s[0]) then 0 else 1 + LeadingBlanks(s[1..])
  }

  /** How many characters trim strips from the back of s. */
  function TrailingBlanks(s: string): (n: nat)
    ensures n <= |s|
    ensures forall k :: |s| - n <= k < |s| ==> IsBlank(s[k])
    ensures n < |s| ==> !IsBlank(s[|s| - 1 - n])
  {
    if s == [] || !IsBlank(s[|s| - 1]) then 0 else 1 + TrailingBlanks(s[..|s| - 1])
  }

  /** String.trim: the string without its leading and trailing blanks. */
  function Trim(s: string): (r: string)
    ensures |r| <= |s|
    ensures r == [] || (!IsBlank(r[0]) && !IsBlank(r[|r| - 1]))
  {
    var t := s[LeadingBlanks(s)..];
    t[..|t| - TrailingBlanks(t)]
  }

  /** A string equal to its own trim. */
  predicate IsTrimmed(s: string) {
    Trim(s) == s
  }

  /**
   * Trim is characterised independently of how it is computed: it is the
   * one infix s[i..j] that has only blanks outside it and no blank at
   * either of its own ends.
   */
  lemma TrimIsBlankFreeInfix(s: string, i: nat, j: nat)
    requires i <= j <= |s|
    requires forall k :: 0 <= k < i ==> IsBlank(s[k])
    requires forall k :: j <= k < |s| ==> IsBlank(s[k])
    requires i < j ==> !IsBlank(s[i]) && !IsBlank(s[j - 1])
    ensures Trim(s) == s[i..j]
  {
    var n := LeadingBlanks(s);
    var t := s[n..];
    var m := TrailingBlanks(t);
    if i < j {
      assert n == i;
      assert |t| - m == j - i;
    } else {
      assert n == |s|;
    }
  }

  /** Trimming twice is trimming once. */
  lemma TrimIdempotent(s: string)
    ensures IsTrimmed(Trim(s))
  {
    var r := Trim(s);
    TrimIsBlankFreeInfix(r, 0, |r|);
  }

  /** The ASCII upper-case letters fold to lower case; every other character is kept. */
  function LowerChar(c: char): (d: char)
    ensures 'A' <= c <= 'Z' ==> d != c && d as int - c as int == 'a' as int - 'A' as int
    ensures !('A' <= c <= 'Z') ==> d == c
  {
    if 'A' <= c <= 'Z' then (c as int - 'A' as int + 'a' as int) as char else c
  }

  /** String.equalsIgnoreCase, character by character under the ASCII fold. */
  predicate EqualsIgnoreCase(a: string, b: string): (r: bool)
    ensures a == b ==> r
    ensures r ==> |a| == |b|
  {
    |a| == |b| && forall i :: 0 <= i < |a| ==> LowerChar(a[i]) == LowerChar(b[i])
  }

  /** String.toLowerCase under the ASCII fold. */
  function ToLowerCase(s: string): (r: string)
    ensures |r| == |s|
    ensures forall i :: 0 <= i < |s| ==> r[i] == LowerChar(s[i])
  {
    if s == [] then [] else [LowerChar(s[0])] + ToLowerCase(s[1..])
  }

  /** Two names are equal ignoring case exactly when their lower-case forms are equal. */
  lemma EqualsIgnoreCaseIffSameLowerCase(a: string, b: string)
    ensures EqualsIgnoreCase(a, b) <==> ToLowerCase(a) == ToLowerCase(b)
  {
    if ToLowerCase(a) == ToLowerCase(b) {
      assert |a| == |b|;
      forall i | 0 <= i < |a| ensures LowerChar(a[i]) == LowerChar(b[i]) {
        assert ToLowerCase(a)[i] == ToLowerCase(b)[i];
      }
    }
  }

  /** Ignoring case is an equivalence relation on names. */
  lemma EqualsIgnoreCaseIsEquivalence(a: string, b: string, c: string)
    ensures EqualsIgnoreCase(a, a)
    ensures EqualsIgnoreCase(a, b) ==> EqualsIgnoreCase(b, a)
    ensures EqualsIgnoreCase(a, b) && EqualsIgnoreCase(b, c) ==> EqualsIgnoreCase(a, c)
  {
    EqualsIgnoreCaseIffSameLowerCase(a, b);
    EqualsIgnoreCaseIffSameLowerCase(b, c);
    EqualsIgnoreCaseIffSameLowerCase(a, c);
    EqualsIgnoreCaseIffSameLowerCase(b, a);
  }
}
