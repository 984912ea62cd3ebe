/**
 * Whitespace as MicroPython's `str.strip()` and `int()` see it: the six ASCII space characters.
 */
module Whitespace {
  /** The characters MicroPython's `str.strip()` removes. */
  predicate IsSpace(c: char) {
    c == ' ' || c == '\t' || c == '\n' || c == '\r' || c == '\U{000B}' || c == '\U{000C}'
  }

  /** The index of the first character at or after `i` that is not whitespace, or `|s|`. */
  function TextStart(s: string, i: nat): (j: nat)
    requires i <= |s|
    ensures i <= j <= |s|
    ensures forall k {:trigger IsSpace(s[k])} :: i <= k < j ==> IsSpace(s[k])
    ensures j == |s| || !IsSpace(s[j])
    decreases |s| - i
  {
    if i == |s| || !IsSpace(s[i]) then i else TextStart(s, i + 1)
  }

  /** The index just after the last character before `j` that is not whitespace, or 0. */
  function TextEnd(s: string, j: nat): (e: nat)
    requires j <= |s|
    ensures e <= j
    ensures forall k :: e <= k < j ==> IsSpace(s[k])
    ensures e == 0 || !IsSpace(s[e - 1])
  {
    if j == 0 || !IsSpace(s[j - 1]) then j else TextEnd(s, j - 1)
  }

  /** A string with no whitespace at either end. */
  predicate Stripped(s: string) {
    s == [] || (!IsSpace(s[0]) && !IsSpace(s[|s| - 1]))
  }

  /** `str.strip()`: `s` without the whitespace at either end. */
  function Strip(s: string): (r: string)
    ensures Stripped(r)
  {
    var i := TextStart(s, 0);
    var e := TextEnd(s, |s|);
    if e <= i then [] else s[i..e]
  }

  /**
   * What `Strip` keeps is one stretch of `s`, and everything it removed before and after that
   * stretch is whitespace.
   */
  lemma {:induction false} StripKeepsInnerStretch(s: string)
    ensures var i := TextStart(s, 0); var r := Strip(s);
              && i + |r| <= |s| && r == s[i..i + |r|]
              && (forall k :: 0 <= k < i ==> IsSpace(s[k]))
              && (forall k :: i + |r| <= k < |s| ==> IsSpace(s[k]))
  {
    var i := TextStart(s, 0);
    var e := TextEnd(s, |s|);
    if e <= i {
      assert Strip(s) == [];
      forall k | i <= k < |s|
        ensures IsSpace(s[k])
      {
        assert e <= k;
      }
    }
  }

  /** A string with no whitespace at its ends is its own strip. */
  lemma {:induction false} StrippedIsFixed(s: string)
    requires Stripped(s)
    ensures Strip(s) == s
  {
    if s != [] {
      assert TextStart(s, 0) == 0;
      assert TextEnd(s, |s|) == |s|;
      assert s[0..|s|] == s;
    }
  }

  /** Stripping twice is stripping once. */
  lemma {:induction false} StripIdempotent(s: string)
    ensures Strip(Strip(s)) == Strip(s)
  {
    StrippedIsFixed(Strip(s));
  }

  /** A string strips to nothing exactly when it is all whitespace. */
  lemma {:induction false} StripEmptyIffAllSpace(s: string)
    ensures Strip(s) == [] <==> forall k :: 0 <= k < |s| ==> IsSpace(s[k])
  {
    StripKeepsInnerStretch(s);
  }
}
