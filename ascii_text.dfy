/**
 * ASCII character classes and the Python string operations the extractor and the
 * universe builder rely on: `\w`, `\s` (which on ASCII agrees with `str.isspace`),
 * `str.upper`, `str.isalpha` and `str.strip`. Text outside ASCII is not modelled.
 */
module AsciiText {

  predicate IsLetter(c: char) { 'A' <= c <= 'Z' || 'a' <= c <= 'z' }

  predicate IsLowerLetter(c: char) { 'a' <= c <= 'z' }

  predicate IsDigit(c: char) { '0' <= c <= '9' }

  /** Regex `\w` on ASCII: letters, digits and underscore. */
  predicate IsWordChar(c: char) { IsLetter(c) || IsDigit(c) || c == '_' }

  /** Regex `\s` and `str.isspace` on ASCII: tab, LF, VT, FF, CR, the four separators 0x1C-0x1F, space. */
  predicate IsSpace(c: char) { 9 <= c as int <= 13 || 28 <= c as int <= 32 }

  function UpperChar(c: char): (u: char)
    ensures IsLowerLetter(c) ==> u as int == c as int - 32
    ensures !IsLowerLetter(c) ==> u == c
  {
    if IsLowerLetter(c) then (c as int - 32) as char else c
  }

  function LowerChar(c: char): (l: char)
    ensures 'A' <= c <= 'Z' ==> l as int == c as int + 32
    ensures !('A' <= c <= 'Z') ==> l == c
  {
    if 'A' <= c <= 'Z' then (c as int + 32) as char else c
  }

  /** `str.upper` on ASCII text. */
  function Upper(s: string): (u: string)
    ensures |u| == |s|
  {
    seq(|s|, i requires 0 <= i < |s| => UpperChar(s[i]))
  }

  /** No lower-case letter occurs in `s`. */
  predicate IsUpperCase(s: string) {
    forall i :: 0 <= i < |s| ==> !IsLowerLetter(s[i])
  }

  /** `str.isalpha` on ASCII text: non-empty and letters only. */
  predicate IsAlpha(s: string) {
    |s| > 0 && forall i :: 0 <= i < |s| ==> IsLetter(s[i])
  }

  function StripLeading(s: string): (r: string)
    ensures |r| <= |s| && r == s[|s| - |r|..]
    ensures r == [] || !IsSpace(r[0])
    ensures forall j :: 0 <= j < |s| - |r| ==> IsSpace(s[j])
  {
    if |s| > 0 && IsSpace(s[0]) then StripLeading(s[1..]) else s
  }

  function StripTrailing(s: string): (r: string)
    ensures |r| <= |s| && r == s[..|r|]
    ensures r == [] || !IsSpace(r[|r| - 1])
    ensures forall j :: |r| <= j < |s| ==> IsSpace(s[j])
  {
    if |s| > 0 && IsSpace(s[|s| - 1]) then StripTrailing(s[..|s| - 1]) else s
  }

  /** r is the stretch of s that starts at a, and everything of s before and after it is white space. */
  predicate Trimmed(s: string, a: nat, r: string) {
    a + |r| <= |s| && r == s[a..a + |r|] &&
    (forall j :: 0 <= j < a ==> IsSpace(s[j])) && (forall j :: a + |r| <= j < |s| ==> IsSpace(s[j]))
  }

  /**
   * `str.strip()` with no argument: the result is a stretch of s that neither
   * begins nor ends with white space, and everything cut off either side is
   * white space.
   */
  function Strip(s: string): (r: string)
    ensures r == [] || (!IsSpace(r[0]) && !IsSpace(r[|r| - 1]))
    ensures exists a: nat :: Trimmed(s, a, r)
  {
    StripIsTrimmed(s);
    StripTrailing(StripLeading(s))
  }

  lemma StripIsTrimmed(s: string)
    ensures Trimmed(s, |s| - |StripLeading(s)|, StripTrailing(StripLeading(s)))
  {
    TrimmedOfParts(s, StripLeading(s), StripTrailing(StripLeading(s)));
  }

  /** Cutting white space off the front of s gives l, and cutting white space off the back of l gives r. */
  lemma TrimmedOfParts(s: string, l: string, r: string)
    requires |l| <= |s| && l == s[|s| - |l|..] && forall j :: 0 <= j < |s| - |l| ==> IsSpace(s[j])
    requires |r| <= |l| && r == l[..|r|] && forall j :: |r| <= j < |l| ==> IsSpace(l[j])
    ensures Trimmed(s, |s| - |l|, r)
  {
    var a := |s| - |l|;
    forall k | 0 <= k < |r| ensures r[k] == s[a + k] {
      assert r[k] == l[k];
      assert l[k] == s[a + k];
    }
    assert r == s[a..a + |r|];
    forall j | a + |r| <= j < |s| ensures IsSpace(s[j]) {
      assert s[j] == l[j - a];
    }
  }


  lemma UpperIsUpperCase(s: string)
    ensures IsUpperCase(Upper(s))
  {
  }

  /** Upper-casing keeps letters letters and non-letters non-letters. */
  lemma UpperKeepsAlpha(s: string)
    ensures IsAlpha(Upper(s)) <==> IsAlpha(s)
  {
    forall i | 0 <= i < |s|
      ensures IsLetter(Upper(s)[i]) <==> IsLetter(s[i])
    {
      assert Upper(s)[i] == UpperChar(s[i]);
    }
  }

  lemma UpperOfUpperCase(s: string)
    requires IsUpperCase(s)
    ensures Upper(s) == s
  {
  }

  lemma UpperIdempotent(s: string)
    ensures Upper(Upper(s)) == Upper(s)
  {
    UpperIsUpperCase(s);
    UpperOfUpperCase(Upper(s));
  }

  /** A word with no surrounding white space, followed by a newline, strips back to the word. */
  lemma {:induction false} StripLine(w: string)
    requires w != [] && !IsSpace(w[0]) && !IsSpace(w[|w| - 1])
    ensures Strip(w + "\n") == w
  {
    var line := w + "\n";
    assert StripLeading(line) == line;
    assert line[..|line| - 1] == w;
    assert StripTrailing(line) == StripTrailing(w);
  }
}
