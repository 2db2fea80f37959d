/**
 `normalizar_emocion` of app.py: the clean-up applied to the vision model's
 free-text reply before it is compared with the canonical emotion labels.

   1. an empty string is returned unchanged;
   2. every character is replaced by its canonical (NFD) decomposition and
      every non-ASCII character is then dropped;
   3. every character that is neither `\w` nor `\s` is deleted, the result
      is stripped and lower-cased;
   4. the result is capitalised.
 */
module Normalization {
  import opened PyStr

  predicate AllAscii(s: string) { forall i :: 0 <= i < |s| ==> IsAscii(s[i]) }

  /** Step 2 for one character, as given by this table: its NFD
      decomposition with the non-ASCII code points removed. The table
      covers ASCII (which NFD leaves alone), the accented letters of
      Latin-1, the negated comparison signs and a few singleton signs; any
      other character, combining marks included, leaves nothing behind. */
  function Decompose(c: char): (r: string)
    ensures AllAscii(r)
    ensures IsAscii(c) ==> r == [c]
    ensures IsSpace(c) && !IsAscii(c) ==> r == []
  {
    if IsAscii(c) then [c]
    else if 'À' <= c <= 'Å' || c == '\U{212B}' then "A"  // U+212B ANGSTROM SIGN
    else if c == 'Ç' then "C"
    else if 'È' <= c <= 'Ë' then "E"
    else if 'Ì' <= c <= 'Ï' then "I"
    else if c == 'Ñ' then "N"
    else if 'Ò' <= c <= 'Ö' then "O"
    else if 'Ù' <= c <= 'Ü' then "U"
    else if c == 'Ý' then "Y"
    else if 'à' <= c <= 'å' then "a"
    else if c == 'ç' then "c"
    else if 'è' <= c <= 'ë' then "e"
    else if 'ì' <= c <= 'ï' then "i"
    else if c == 'ñ' then "n"
    else if 'ò' <= c <= 'ö' then "o"
    else if 'ù' <= c <= 'ü' then "u"
    else if c == 'ý' || c == 'ÿ' then "y"
    else if c == '\U{212A}' then "K"  // KELVIN SIGN
    else if c == '\U{037E}' then ";"  // GREEK QUESTION MARK
    else if c == '\U{1FEF}' then "`"  // GREEK VARIA
    else if c == '\U{2260}' then "="  // NOT EQUAL TO
    else if c == '\U{226E}' then "<"  // NOT LESS-THAN
    else if c == '\U{226F}' then ">"  // NOT GREATER-THAN
    else []
  }

  /** Step 2 on a whole string: `normalize("NFD", s).encode("ascii", "ignore")`
      as given by the `Decompose` table. NFD may reorder combining marks but never moves an ASCII character,
      so the decomposition can be taken one character at a time. */
  function AsciiFold(s: string): (r: string)
    ensures AllAscii(r)
    ensures AllAscii(s) ==> r == s
    ensures AllSpace(s) ==> AllSpace(r)
  {
    if s == [] then [] else Decompose(s[0]) + AsciiFold(s[1..])
  }

  lemma {:induction false} AsciiFoldAppend(a: string, b: string)
    ensures AsciiFold(a + b) == AsciiFold(a) + AsciiFold(b)
    decreases |a|
  {
    if a == [] {
      assert a + b == b;
    } else {
      assert (a + b)[1..] == a[1..] + b;
      AsciiFoldAppend(a[1..], b);
    }
  }

  /** The characters the pattern `[^\w\s]` does not match, on ASCII text. */
  predicate Kept(c: char) { IsWordChar(c) || IsSpace(c) }

  /** `re.sub(r"[^\w\s]", "", s)` on ASCII text: delete punctuation and
      every other character that is neither a word character nor
      whitespace, keeping the order of the rest. */
  function DropPunctuation(s: string): (r: string)
    ensures forall i :: 0 <= i < |r| ==> Kept(r[i])
    ensures AllAscii(s) ==> AllAscii(r)
    ensures (forall i :: 0 <= i < |s| ==> Kept(s[i])) ==> r == s
    ensures |r| <= |s|
  {
    if s == [] then []
    else if Kept(s[0]) then [s[0]] + DropPunctuation(s[1..])
    else DropPunctuation(s[1..])
  }

  lemma {:induction false} DropPunctuationAppend(a: string, b: string)
    ensures DropPunctuation(a + b) == DropPunctuation(a) + DropPunctuation(b)
    decreases |a|
  {
    if a == [] {
      assert a + b == b;
    } else {
      assert (a + b)[1..] == a[1..] + b;
      DropPunctuationAppend(a[1..], b);
    }
  }

  /** Steps 3 and 4 on text that step 2 has already made ASCII. */
  function Canonicalize(t: string): (r: string) {
    Capitalize(Lower(Strip(DropPunctuation(t))))
  }

  /** Only ASCII word characters and ASCII whitespace. */
  predicate Clean(t: string) { forall i :: 0 <= i < |t| ==> IsAscii(t[i]) && Kept(t[i]) }

  /** No whitespace at either end. */
  predicate Trimmed(t: string) { t != [] ==> !IsSpace(t[0]) && !IsSpace(t[|t| - 1]) }

  /** The shape of every result of `normalizar_emocion`: only ASCII word
      characters and whitespace, no whitespace at either end, a first
      character that is not a lower-case letter and no upper-case letter
      after it. */
  predicate NormalForm(t: string) {
    && Clean(t)
    && Trimmed(t)
    && (t != [] ==> !IsLower(t[0]))
    && (forall i :: 1 <= i < |t| ==> !IsUpper(t[i]))
  }

  /** `normalizar_emocion(texto)`. */
  function NormalizeEmotion(s: string): (r: string)
    ensures s == [] ==> r == []
    ensures NormalForm(r)
  {
    if s == [] then [] else
      CanonicalizeIsNormal(AsciiFold(s));
      Canonicalize(AsciiFold(s))
  }

  lemma CanonicalizeIsNormal(t: string)
    requires AllAscii(t)
    ensures NormalForm(Canonicalize(t))
  {
    var k := DropPunctuation(t);
    StripKeepsClean(k);
    LowerKeepsShape(Strip(k));
    CapitalizeKeepsShape(Lower(Strip(k)));
  }

  lemma StripKeepsClean(k: string)
    requires Clean(k)
    ensures Clean(Strip(k)) && Trimmed(Strip(k))
  {
    if !AllSpace(k) {
      StripOfText(k);
      CleanSlice(k, SkipSpace(k, 0), SkipSpaceBack(k, |k|));
    }
  }

  lemma CleanSlice(k: string, a: nat, b: nat)
    requires Clean(k) && a <= b <= |k|
    ensures Clean(k[a..b])
  {
    assert forall i :: 0 <= i < b - a ==> k[a..b][i] == k[a + i];
  }

  lemma LowerKeepsShape(x: string)
    requires Clean(x) && Trimmed(x)
    ensures Clean(Lower(x)) && Trimmed(Lower(x))
    ensures forall i :: 0 <= i < |x| ==> !IsUpper(Lower(x)[i])
  {
    var l := Lower(x);
    forall i | 0 <= i < |l| ensures IsAscii(l[i]) && Kept(l[i]) && IsSpace(l[i]) == IsSpace(x[i]) {
      CaseMapKeepsClass(x[i]);
    }
  }

  lemma CapitalizeKeepsShape(x: string)
    requires Clean(x) && Trimmed(x)
    requires forall i :: 0 <= i < |x| ==> !IsUpper(x[i])
    ensures NormalForm(Capitalize(x))
  {
    var r := Capitalize(x);
    forall i | 0 <= i < |r| ensures IsAscii(r[i]) && Kept(r[i]) && IsSpace(r[i]) == IsSpace(x[i]) {
      CaseMapKeepsClass(x[i]);
    }
  }

  /** Changing the case of a character keeps it ASCII, keeps it a word
      character, and keeps it whitespace or not. */
  lemma CaseMapKeepsClass(c: char)
    ensures IsAscii(ToLower(c)) == IsAscii(c) && IsAscii(ToUpper(c)) == IsAscii(c)
    ensures Kept(ToLower(c)) == Kept(c) && Kept(ToUpper(c)) == Kept(c)
    ensures IsSpace(ToLower(c)) == IsSpace(c) && IsSpace(ToUpper(c)) == IsSpace(c)
  {
    if IsUpper(c) || IsLower(c) {
      WordCharNotSpace(c);
      WordCharNotSpace(ToLower(c));
      WordCharNotSpace(ToUpper(c));
    }
  }

  /** A string already in normal form is its own normalisation. */
  lemma NormalFormIsFixed(t: string)
    requires NormalForm(t)
    ensures NormalizeEmotion(t) == t
  {
    if t != [] {
      assert AsciiFold(t) == t;
      assert DropPunctuation(t) == t;
      assert Strip(t) == t;
      CapitalizeLowerFixed(t);
    }
  }

  /** Lower-casing and then capitalising a normal form gives it back. */
  lemma CapitalizeLowerFixed(t: string)
    requires NormalForm(t) && t != []
    ensures Capitalize(Lower(t)) == t
  {
    var r := Capitalize(Lower(t));
    assert r[0] == t[0];
    assert forall i :: 1 <= i < |t| ==> r[i] == t[i];
  }

  /** A single capitalised word, such as every canonical label, is in
      normal form. */
  lemma CapitalizedWordIsNormal(t: string)
    requires t != [] && IsUpper(t[0])
    requires forall i :: 1 <= i < |t| ==> IsLower(t[i])
    ensures NormalForm(t)
  {
    forall i | 0 <= i < |t| ensures IsAscii(t[i]) && Kept(t[i]) && !IsSpace(t[i]) {
      WordCharNotSpace(t[i]);
    }
  }

  /** A run of ASCII letters passes steps 2 and 3 untouched. */
  lemma LettersPassThrough(s: string)
    requires forall i :: 0 <= i < |s| ==> IsUpper(s[i]) || IsLower(s[i])
    ensures AsciiFold(s) == s && DropPunctuation(s) == s
  {
  }

  /** Normalising twice gives what normalising once gives. */
  lemma NormalizeIdempotent(s: string)
    ensures NormalizeEmotion(NormalizeEmotion(s)) == NormalizeEmotion(s)
  {
    NormalFormIsFixed(NormalizeEmotion(s));
  }

  /** The fixed points of the normaliser are exactly the strings in normal
      form. */
  lemma FixedPointsAreNormalForms(t: string)
    ensures NormalizeEmotion(t) == t <==> NormalForm(t)
  {
    if NormalForm(t) {
      NormalFormIsFixed(t);
    }
  }

  /** The empty-input guard changes nothing: the remaining steps map the
      empty string to itself too. The result is then read as the
      capitalised, stripped, lower-cased word-and-space content of the
      ASCII decomposition. */
  lemma NormalizeByContent(s: string)
    ensures NormalizeEmotion(s) == Capitalize(Strip(Lower(DropPunctuation(AsciiFold(s)))))
  {
    LowerStripCommute(DropPunctuation(AsciiFold(s)));
  }

  /** Two replies whose ASCII decompositions carry the same word characters
      and whitespace, up to letter case, normalise to the same label: case,
      accents and punctuation make no difference. */
  lemma NormalizeIgnoresCaseAccentsPunctuation(a: string, b: string)
    requires Lower(DropPunctuation(AsciiFold(a))) == Lower(DropPunctuation(AsciiFold(b)))
    ensures NormalizeEmotion(a) == NormalizeEmotion(b)
  {
    NormalizeByContent(a);
    NormalizeByContent(b);
  }

  /** A reply whose word-and-space content matches a normal-form string up
      to letter case normalises to that string. */
  lemma NormalizesTo(s: string, t: string)
    requires NormalForm(t)
    requires Lower(DropPunctuation(AsciiFold(s))) == Lower(t)
    ensures NormalizeEmotion(s) == t
  {
    assert AsciiFold(t) == t;
    assert DropPunctuation(t) == t;
    NormalizeIgnoresCaseAccentsPunctuation(s, t);
    NormalFormIsFixed(t);
  }

  /** Stripping the reply first, as `predict` does, changes nothing. */
  lemma NormalizeIgnoresSurroundingSpace(s: string)
    ensures NormalizeEmotion(Strip(s)) == NormalizeEmotion(s)
  {
    if AllSpace(s) {
      assert Strip(s) == [];
      var f := AsciiFold(s);
      assert DropPunctuation(f) == f;
      assert Strip(f) == [];
    } else {
      StripOfText(s);
      var a, b := SkipSpace(s, 0), SkipSpaceBack(s, |s|);
      var w1, m, w2 := s[..a], s[a..b], s[b..];
      assert s == w1 + m + w2;
      assert AllSpace(w1) && AllSpace(w2);
      AsciiFoldAppend(w1 + m, w2);
      AsciiFoldAppend(w1, m);
      var f1, fm, f2 := AsciiFold(w1), AsciiFold(m), AsciiFold(w2);
      DropPunctuationAppend(f1 + fm, f2);
      DropPunctuationAppend(f1, fm);
      assert DropPunctuation(f1) == f1;
      assert DropPunctuation(f2) == f2;
      StripPadded(f1, DropPunctuation(fm), f2);
    }
  }

  /** A non-empty run of ASCII letters. */
  predicate IsWord(w: string) {
    w != [] && forall i :: 0 <= i < |w| ==> IsUpper(w[i]) || IsLower(w[i])
  }

  /** ASCII text with no word character and no whitespace. */
  predicate IsPunctuation(p: string) {
    forall i :: 0 <= i < |p| ==> IsAscii(p[i]) && !Kept(p[i])
  }

  lemma {:induction false} DropAllPunctuation(p: string)
    requires forall i :: 0 <= i < |p| ==> !Kept(p[i])
    ensures DropPunctuation(p) == []
    decreases |p|
  {
    if p != [] {
      DropAllPunctuation(p[1..]);
    }
  }

  /** A word normalises to its capitalised lower-case spelling. */
  lemma WordNormalizes(w: string)
    requires IsWord(w)
    ensures NormalizeEmotion(w) == Capitalize(Lower(w))
  {
    LettersPassThrough(w);
    NormalizeByContent(w);
    LowerWordIsTrimmed(w);
  }

  lemma LowerWordIsTrimmed(w: string)
    requires IsWord(w)
    ensures Strip(Lower(w)) == Lower(w)
  {
    var l := Lower(w);
    assert IsWordChar(l[0]) && IsWordChar(l[|l| - 1]);
    WordCharNotSpace(l[0]);
    WordCharNotSpace(l[|l| - 1]);
  }

  /** Punctuation after the text is ignored. */
  lemma TrailingPunctuationIgnored(s: string, p: string)
    requires IsPunctuation(p)
    ensures NormalizeEmotion(s + p) == NormalizeEmotion(s)
  {
    AsciiFoldAppend(s, p);
    assert AsciiFold(p) == p;
    DropPunctuationAppend(AsciiFold(s), p);
    DropAllPunctuation(p);
    assert DropPunctuation(AsciiFold(s + p)) == DropPunctuation(AsciiFold(s)) + [];
    NormalizeIgnoresCaseAccentsPunctuation(s + p, s);
  }

  /** Whitespace around the text is ignored. */
  lemma PaddingIgnored(w1: string, m: string, w2: string)
    requires AllSpace(w1) && AllSpace(w2)
    ensures NormalizeEmotion(w1 + m + w2) == NormalizeEmotion(m)
  {
    StripPadded(w1, m, w2);
    NormalizeIgnoresSurroundingSpace(w1 + m + w2);
    NormalizeIgnoresSurroundingSpace(m);
  }

  /** A word written in any letter case, followed by punctuation and
      surrounded by whitespace, normalises like the word alone. */
  lemma VariantNormalizes(w1: string, w: string, p: string, w2: string, t: string)
    requires IsWord(t) && NormalizeEmotion(t) == t
    requires IsWord(w) && Lower(w) == Lower(t)
    requires IsPunctuation(p)
    requires AllSpace(w1) && AllSpace(w2)
    ensures NormalizeEmotion(w1 + w + p + w2) == t
  {
    DecoratedNormalizes(w1, w, p, w2);
    WordNormalizes(w);
    WordNormalizes(t);
  }

  /** Trailing punctuation and surrounding whitespace together are
      ignored. */
  lemma DecoratedNormalizes(w1: string, m: string, p: string, w2: string)
    requires IsPunctuation(p)
    requires AllSpace(w1) && AllSpace(w2)
    ensures NormalizeEmotion(w1 + m + p + w2) == NormalizeEmotion(m)
  {
    Regroup(w1, m, p, w2);
    PaddingIgnored(w1, m + p, w2);
    TrailingPunctuationIgnored(m, p);
  }

  lemma Regroup(a: string, b: string, c: string, d: string)
    ensures a + b + c + d == a + (b + c) + d
  {
  }

  /** Any character counts as its decomposition: an accented letter reads
      as its base letter, and a character with no ASCII decomposition is as
      good as absent. */
  lemma AccentCountsAsBase(a: string, c: char, b: string)
    ensures NormalizeEmotion(a + [c] + b) == NormalizeEmotion(a + Decompose(c) + b)
  {
    var d := Decompose(c);
    AsciiFoldAppend(a + [c], b);
    AsciiFoldAppend(a, [c]);
    AsciiFoldAppend(a + d, b);
    AsciiFoldAppend(a, d);
    assert [c][1..] == [];
    assert AsciiFold([c]) == d;
  }

  lemma AccentedVariant(w1: string, a: string, c: char, b: string, p: string, w2: string)
    ensures NormalizeEmotion(w1 + a + [c] + b + p + w2) ==
      NormalizeEmotion(w1 + (a + Decompose(c) + b) + p + w2)
  {
    var d := Decompose(c);
    assert w1 + a + [c] + b + p + w2 == (w1 + a) + [c] + (b + p + w2);
    assert w1 + (a + d + b) + p + w2 == (w1 + a) + d + (b + p + w2);
    AccentCountsAsBase(w1 + a, c, b + p + w2);
  }

  /** Characters without an ASCII decomposition vanish from the reply. */
  lemma VanishingCharacters()
    ensures Decompose('ß') == [] && Decompose('ø') == [] && Decompose('Ø') == []
    ensures Decompose('\U{1F600}') == [] && Decompose('\U{0301}') == []
  {
  }

  /** The accented vowels of Spanish decompose to their base letters. */
  lemma SpanishAccents()
    ensures Decompose('á') == "a" && Decompose('é') == "e" && Decompose('í') == "i"
    ensures Decompose('ó') == "o" && Decompose('ú') == "u" && Decompose('ñ') == "n"
    ensures Decompose('Á') == "A" && Decompose('É') == "E" && Decompose('Í') == "I"
  {
  }
}
