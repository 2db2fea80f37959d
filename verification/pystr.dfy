/**
 The few Python `str` operations the service relies on, over `seq<char>`:
 `str.isspace`, `str.strip()`, `str.lower()`, `str.capitalize()` and
 `str.replace(pattern, "")`. Case mapping is modelled on ASCII only; every
 caller applies it to text that is already ASCII.
 */
module PyStr {

  /** Python's `str.isspace()` for one character (the set `\s` matches in a
      `str` pattern, and the set `str.strip()` removes). Besides the usual
      ASCII blanks it includes the separators U+001C..U+001F. */
  predicate IsSpace(c: char) { c in Whitespace }

  /** Every character for which Python's `str.isspace()` holds. */
  const Whitespace: set<char> :=
    {'\t', '\n', '\U{000B}', '\U{000C}', '\r', '\U{001C}', '\U{001D}', '\U{001E}', '\U{001F}', ' ',
     '\U{0085}', '\U{00A0}', '\U{1680}',
     '\U{2000}', '\U{2001}', '\U{2002}', '\U{2003}', '\U{2004}', '\U{2005}', '\U{2006}',
     '\U{2007}', '\U{2008}', '\U{2009}', '\U{200A}',
     '\U{2028}', '\U{2029}', '\U{202F}', '\U{205F}', '\U{3000}'}

  /** No letter or digit of ASCII, nor the underscore, is whitespace. */
  lemma WordCharNotSpace(c: char)
    requires IsWordChar(c)
    ensures !IsSpace(c)
  {
  }

  predicate IsAscii(c: char) { c < '\U{0080}' }
  predicate IsUpper(c: char) { 'A' <= c <= 'Z' }
  predicate IsLower(c: char) { 'a' <= c <= 'z' }
  predicate IsDigit(c: char) { '0' <= c <= '9' }

  /** `\w` restricted to ASCII text: letters, digits and the underscore. */
  predicate IsWordChar(c: char) { IsUpper(c) || IsLower(c) || IsDigit(c) || c == '_' }

  predicate AllSpace(s: string) { forall i :: 0 <= i < |s| ==> IsSpace(s[i]) }

  function ToLower(c: char): (d: char)
    ensures !IsUpper(d)
    ensures IsUpper(c) ==> IsLower(d)
    ensures !IsUpper(c) ==> d == c
  {
    if IsUpper(c) then (c as int + 32) as char else c
  }

  function ToUpper(c: char): (d: char)
    ensures !IsLower(d)
    ensures IsLower(c) ==> IsUpper(d)
    ensures !IsLower(c) ==> d == c
  {
    if IsLower(c) then (c as int - 32) as char else c
  }

  /** Python's `str.lower()` on ASCII text. */
  function Lower(s: string): (r: string)
    ensures |r| == |s|
    ensures forall i :: 0 <= i < |s| ==> r[i] == ToLower(s[i])
  {
    seq(|s|, i requires 0 <= i < |s| => ToLower(s[i]))
  }

  /** Python's `str.capitalize()` on ASCII text: the first character is
      upper-cased (title case coincides with upper case on ASCII) and every
      other character is lower-cased. */
  function Capitalize(s: string): (r: string)
    ensures |r| == |s|
    ensures |s| > 0 ==> !IsLower(r[0]) && ToLower(r[0]) == ToLower(s[0])
    ensures forall i :: 1 <= i < |s| ==> r[i] == ToLower(s[i])
  {
    if s == [] then [] else [ToUpper(s[0])] + Lower(s[1..])
  }

  /** The first index at or after `i` whose character is not whitespace, or
      `|s|` when there is none. */
  function SkipSpace(s: string, i: nat): (k: nat)
    requires i <= |s|
    ensures i <= k <= |s|
    ensures forall j :: i <= j < k ==> IsSpace(s[j])
    ensures k < |s| ==> !IsSpace(s[k])
    decreases |s| - i
  {
    if i < |s| && IsSpace(s[i]) then SkipSpace(s, i + 1) else i
  }

  /** The least index `k <= j` such that `s[k..j]` is all whitespace. */
  function SkipSpaceBack(s: string, j: nat): (k: nat)
    requires j <= |s|
    ensures k <= j
    ensures forall i :: k <= i < j ==> IsSpace(s[i])
    ensures k > 0 ==> !IsSpace(s[k - 1])
    decreases j
  {
    if j > 0 && IsSpace(s[j - 1]) then SkipSpaceBack(s, j - 1) else j
  }

  /** Python's `str.strip()` with no argument: the text between the maximal
      leading and the maximal trailing whitespace runs. */
  function Strip(s: string): (r: string)
    ensures r == [] || (!IsSpace(r[0]) && !IsSpace(r[|r| - 1]))
    ensures r == [] <==> AllSpace(s)
    ensures |s| > 0 && !IsSpace(s[0]) && !IsSpace(s[|s| - 1]) ==> r == s
  {
    if SkipSpace(s, 0) == |s| then
      []
    else
      assert !IsSpace(s[SkipSpace(s, 0)]);
      s[SkipSpace(s, 0)..SkipSpaceBack(s, |s|)]
  }

  lemma SkipSpaceIs(s: string, i: nat, k: nat)
    requires i <= k <= |s|
    requires forall j :: i <= j < k ==> IsSpace(s[j])
    requires k < |s| ==> !IsSpace(s[k])
    ensures SkipSpace(s, i) == k
  {
  }

  lemma SkipSpaceBackIs(s: string, j: nat, k: nat)
    requires k <= j <= |s|
    requires forall i :: k <= i < j ==> IsSpace(s[i])
    requires k > 0 ==> !IsSpace(s[k - 1])
    ensures SkipSpaceBack(s, j) == k
  {
  }

  /** The text of a string that is not all whitespace lies between its two
      whitespace runs. */
  lemma StripOfText(s: string)
    requires !AllSpace(s)
    ensures SkipSpace(s, 0) < SkipSpaceBack(s, |s|)
    ensures Strip(s) == s[SkipSpace(s, 0)..SkipSpaceBack(s, |s|)]
  {
    assert !IsSpace(s[SkipSpace(s, 0)]);
  }

  /** Leading whitespace and trailing whitespace do not survive `strip()`. */
  lemma StripPadded(w1: string, m: string, w2: string)
    requires AllSpace(w1) && AllSpace(w2)
    ensures Strip(w1 + m + w2) == Strip(m)
  {
    var x := w1 + m + w2;
    if AllSpace(m) {
      assert AllSpace(x) by {
        forall i | 0 <= i < |x| ensures IsSpace(x[i]) {
          if i < |w1| {
            assert x[i] == w1[i];
          } else if i < |w1| + |m| {
            assert x[i] == m[i - |w1|];
          } else {
            assert x[i] == w2[i - |w1| - |m|];
          }
        }
      }
    } else {
      StripPaddedText(w1, m, w2);
    }
  }

  lemma StripPaddedText(w1: string, m: string, w2: string)
    requires AllSpace(w1) && AllSpace(w2) && !AllSpace(m)
    ensures Strip(w1 + m + w2) == Strip(m)
  {
    var x := w1 + m + w2;
    var p := |w1|;
    var a := SkipSpace(m, 0);
    var b := SkipSpaceBack(m, |m|);
    StripOfText(m);
    SkipSpacePadded(w1, m, w2);
    SkipSpaceBackPadded(w1, m, w2);
    StripOfText(x);
    SliceOfMiddle(w1, m, w2, a, b);
  }

  lemma SliceOfMiddle(u: string, m: string, v: string, i: nat, j: nat)
    requires i <= j <= |m|
    ensures (u + m + v)[|u| + i..|u| + j] == m[i..j]
  {
    assert forall k :: 0 <= k < |m| ==> (u + m + v)[|u| + k] == m[k];
  }

  lemma SkipSpacePadded(w1: string, m: string, w2: string)
    requires AllSpace(w1) && !AllSpace(m)
    ensures SkipSpace(w1 + m + w2, 0) == |w1| + SkipSpace(m, 0)
  {
    var x := w1 + m + w2;
    var a := SkipSpace(m, 0);
    StripOfText(m);
    assert forall i :: 0 <= i < |w1| ==> x[i] == w1[i];
    assert forall i :: 0 <= i < |m| ==> x[|w1| + i] == m[i];
    SkipSpaceIs(x, 0, |w1| + a);
  }

  lemma SkipSpaceBackPadded(w1: string, m: string, w2: string)
    requires AllSpace(w2) && !AllSpace(m)
    ensures SkipSpaceBack(w1 + m + w2, |w1 + m + w2|) == |w1| + SkipSpaceBack(m, |m|)
  {
    var x := w1 + m + w2;
    var b := SkipSpaceBack(m, |m|);
    StripOfText(m);
    assert forall i :: 0 <= i < |w2| ==> x[|w1| + |m| + i] == w2[i];
    assert forall i :: 0 <= i < |m| ==> x[|w1| + i] == m[i];
    SkipSpaceBackIs(x, |x|, |w1| + b);
  }

  /** Lower-casing and stripping commute: case mapping never turns a
      whitespace character into a non-whitespace one or back. */
  lemma LowerStripCommute(s: string)
    ensures Lower(Strip(s)) == Strip(Lower(s))
  {
    var l := Lower(s);
    LowerSameSpaces(s);
    var a := SkipSpace(s, 0);
    SkipSpaceIs(l, 0, a);
    if a < |s| {
      var b := SkipSpaceBack(s, |s|);
      SkipSpaceBackIs(l, |s|, b);
      StripOfText(s);
      assert !IsSpace(l[a]);
      StripOfText(l);
      LowerSlice(s, a, b);
    }
  }

  lemma LowerSameSpaces(s: string)
    ensures forall i :: 0 <= i < |s| ==> IsSpace(Lower(s)[i]) == IsSpace(s[i])
  {
    forall i | 0 <= i < |s| ensures IsSpace(Lower(s)[i]) == IsSpace(s[i]) {
      LowerKeepsSpace(s[i]);
    }
  }

  lemma LowerSlice(s: string, a: nat, b: nat)
    requires a <= b <= |s|
    ensures Lower(s[a..b]) == Lower(s)[a..b]
  {
  }

  lemma LowerKeepsSpace(c: char)
    ensures IsSpace(ToLower(c)) == IsSpace(c)
  {
    if IsUpper(c) {
      WordCharNotSpace(c);
      WordCharNotSpace(ToLower(c));
    }
  }

  /** `pattern` occurs in `s` starting at index `i`. */
  predicate OccursAt(s: string, pattern: string, i: nat) {
    i + |pattern| <= |s| && s[i..i + |pattern|] == pattern
  }

  predicate Occurs(s: string, pattern: string) {
    exists i: nat :: i <= |s| && OccursAt(s, pattern, i)
  }

  /** Python's `s.replace(pattern, "")`: a left-to-right scan deleting every
      non-overlapping occurrence of `pattern`. */
  function RemoveAll(s: string, pattern: string): (r: string)
    requires |pattern| > 0
    ensures |r| <= |s|
    decreases |s|
  {
    if |s| < |pattern| then
      s
    else if s[..|pattern|] == pattern then
      RemoveAll(s[|pattern|..], pattern)
    else
      [s[0]] + RemoveAll(s[1..], pattern)
  }

  /** Text without an occurrence of the pattern is left as it is. */
  lemma {:induction false} RemoveAllAbsent(s: string, pattern: string)
    requires |pattern| > 0
    ensures !Occurs(s, pattern) ==> RemoveAll(s, pattern) == s
    decreases |s|
  {
    if !Occurs(s, pattern) && |pattern| <= |s| {
      assert !OccursAt(s, pattern, 0);
      OccursInTail(s, pattern);
      RemoveAllAbsent(s[1..], pattern);
    }
  }

  lemma OccursInTail(s: string, pattern: string)
    requires |s| > 0
    ensures Occurs(s[1..], pattern) ==> Occurs(s, pattern)
  {
    if Occurs(s[1..], pattern) {
      var i: nat :| i <= |s[1..]| && OccursAt(s[1..], pattern, i);
      assert s[1..][i..i + |pattern|] == s[i + 1..i + 1 + |pattern|];
      assert OccursAt(s, pattern, i + 1);
    }
  }
}
