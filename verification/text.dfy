/** The string operations of the pipeline: Python's `str.strip`, `str.upper`,
    `str.lower` and the `in` substring test. Case mapping agrees with Python's
    on the ASCII letters and on the Latin-1 pairs À-Þ / à-þ (without × and ÷).
    Every other character is left unchanged, although Python maps some of
    them: ÿ, µ and ß upper-case to U+0178, U+039C and "SS", and cased letters
    beyond U+00FF (the Kelvin sign, say) change too. */
module Text {

  /** Python's `str.isspace` for single characters: the code points that
      `str.strip()` removes. */
  predicate IsSpace(c: char) {
    || c == ' '
    || ('\t' <= c <= '\r')
    || ('\U{1C}' <= c <= '\U{1F}')
    || c == '\U{85}' || c == '\U{A0}' || c == '\U{1680}'
    || ('\U{2000}' <= c <= '\U{200A}')
    || c == '\U{2028}' || c == '\U{2029}' || c == '\U{202F}'
    || c == '\U{205F}' || c == '\U{3000}'
  }

  predicate IsLowerLetter(c: char) {
    ('a' <= c <= 'z') || ('\U{E0}' <= c <= '\U{FE}' && c != '\U{F7}')
  }

  predicate IsUpperLetter(c: char) {
    ('A' <= c <= 'Z') || ('\U{C0}' <= c <= '\U{DE}' && c != '\U{D7}')
  }

  function UpperChar(c: char): char {
    if IsLowerLetter(c) then (c as int - 32) as char else c
  }

  function LowerChar(c: char): char {
    if IsUpperLetter(c) then (c as int + 32) as char else c
  }

  /** Applies a character map to every position. */
  function MapChars(f: char -> char, s: string): (r: string)
    ensures |r| == |s|
  {
    seq(|s|, i requires 0 <= i < |s| => f(s[i]))
  }

  function Upper(s: string): string {
    MapChars(UpperChar, s)
  }

  function Lower(s: string): string {
    MapChars(LowerChar, s)
  }

  /** `str.lstrip()`: the suffix left after the leading white space. */
  function TrimLeft(s: string): (r: string)
    ensures |r| <= |s| && r == s[|s| - |r|..]
    ensures forall k | 0 <= k < |s| - |r| :: IsSpace(s[k])
    ensures r == [] || !IsSpace(r[0])
  {
    if |s| > 0 && IsSpace(s[0]) then TrimLeft(s[1..]) else s
  }

  /** `str.rstrip()`: the prefix left before the trailing white space. */
  function TrimRight(s: string): (r: string)
    ensures |r| <= |s| && r == s[..|r|]
    ensures forall k | |r| <= k < |s| :: IsSpace(s[k])
    ensures r == [] || !IsSpace(r[|r| - 1])
  {
    if |s| > 0 && IsSpace(s[|s| - 1]) then TrimRight(s[..|s| - 1]) else s
  }

  /** `str.strip()`: the slice of `s` between its leading and its trailing
      white space, which itself neither starts nor ends with white space. */
  function Strip(s: string): (r: string)
    ensures |r| <= |s|
    ensures r == [] || (!IsSpace(r[0]) && !IsSpace(r[|r| - 1]))
  {
    var l := TrimLeft(s);
    var r := TrimRight(l);
    assert r == [] || r[0] == l[0];
    r
  }

  /** What `Strip` removes is white space on both ends and nothing else:
      the result is the slice of `s` starting after its leading spaces. */
  lemma StripIsSlice(s: string) returns (i: nat)
    ensures i + |Strip(s)| <= |s|
    ensures s[i..i + |Strip(s)|] == Strip(s)
    ensures forall k | 0 <= k < i :: IsSpace(s[k])
    ensures forall k | i + |Strip(s)| <= k < |s| :: IsSpace(s[k])
  {
    var l := TrimLeft(s);
    i := |s| - |l|;
    var r := TrimRight(l);
    assert Strip(s) == r;
    TrimmedSlice(s, i, l, r);
  }

  lemma TrimmedSlice(s: string, i: nat, l: string, r: string)
    requires i <= |s| && l == s[i..] && |r| <= |l| && r == l[..|r|]
    requires forall k | |r| <= k < |l| :: IsSpace(l[k])
    ensures s[i..i + |r|] == r
    ensures forall k | i + |r| <= k < |s| :: IsSpace(s[k])
  {
    SliceOfSuffix(s, i, |r|);
    forall k | i + |r| <= k < |s|
      ensures IsSpace(s[k])
    {
      assert s[k] == l[k - i];
    }
  }

  lemma SliceOfSuffix(s: string, i: nat, n: nat)
    requires i + n <= |s|
    ensures s[i..][..n] == s[i..i + n]
  {
  }

  /** `.str.strip().str.lower()`, the normalisation of column names and of
      the student identifier. */
  function Standardize(s: string): string {
    Lower(Strip(s))
  }

  /** Python's `pat in s`. */
  predicate Contains(s: string, pat: string) {
    exists i | 0 <= i <= |s| :: OccursAt(s, pat, i)
  }

  /** `pat` occurs in `s` starting at position `i`. */
  predicate OccursAt(s: string, pat: string, i: nat) {
    i + |pat| <= |s| && s[i..i + |pat|] == pat
  }

  /** A string that neither starts nor ends with white space is its own strip. */
  lemma StripFixed(s: string)
    requires s == [] || (!IsSpace(s[0]) && !IsSpace(s[|s| - 1]))
    ensures Strip(s) == s
  {
  }

  lemma StripIdempotent(s: string)
    ensures Strip(Strip(s)) == Strip(s)
  {
    StripFixed(Strip(s));
  }

  lemma {:induction false} TrimLeftMap(f: char -> char, s: string)
    requires forall c :: IsSpace(f(c)) == IsSpace(c)
    ensures TrimLeft(MapChars(f, s)) == MapChars(f, TrimLeft(s))
  {
    var m := MapChars(f, s);
    if |s| > 0 && IsSpace(s[0]) {
      assert m[1..] == MapChars(f, s[1..]);
      TrimLeftMap(f, s[1..]);
    }
  }

  lemma {:induction false} TrimRightMap(f: char -> char, s: string)
    requires forall c :: IsSpace(f(c)) == IsSpace(c)
    ensures TrimRight(MapChars(f, s)) == MapChars(f, TrimRight(s))
  {
    var m := MapChars(f, s);
    if |s| > 0 && IsSpace(s[|s| - 1]) {
      assert m[..|s| - 1] == MapChars(f, s[..|s| - 1]);
      TrimRightMap(f, s[..|s| - 1]);
    }
  }

  /** Stripping commutes with any character map that neither creates nor
      removes white space, in particular with both case maps. */
  lemma StripMap(f: char -> char, s: string)
    requires forall c :: IsSpace(f(c)) == IsSpace(c)
    ensures Strip(MapChars(f, s)) == MapChars(f, Strip(s))
  {
    TrimLeftMap(f, s);
    TrimRightMap(f, TrimLeft(s));
  }

  lemma StripUpper(s: string)
    ensures Strip(Upper(s)) == Upper(Strip(s))
  {
    forall c
      ensures IsSpace(UpperChar(c)) == IsSpace(c)
    {
      CaseKeepsSpace(c);
    }
    StripMap(UpperChar, s);
  }

  lemma StripLower(s: string)
    ensures Strip(Lower(s)) == Lower(Strip(s))
  {
    forall c
      ensures IsSpace(LowerChar(c)) == IsSpace(c)
    {
      CaseKeepsSpace(c);
    }
    StripMap(LowerChar, s);
  }

  /** Letters are not white space, so case mapping neither creates nor
      removes it. */
  lemma CaseKeepsSpace(c: char)
    ensures IsSpace(UpperChar(c)) == IsSpace(c)
    ensures IsSpace(LowerChar(c)) == IsSpace(c)
  {
    if IsLowerLetter(c) {
      assert !IsSpace(c) && IsUpperLetter(UpperChar(c)) && !IsSpace(UpperChar(c));
    }
    if IsUpperLetter(c) {
      assert !IsSpace(c) && IsLowerLetter(LowerChar(c)) && !IsSpace(LowerChar(c));
    }
  }

  lemma CaseCharFacts(c: char)
    ensures LowerChar(LowerChar(c)) == LowerChar(c)
    ensures UpperChar(UpperChar(c)) == UpperChar(c)
    ensures UpperChar(LowerChar(c)) == UpperChar(c)
    ensures LowerChar(UpperChar(c)) == LowerChar(c)
  {
  }

  lemma LowerIdempotent(s: string)
    ensures Lower(Lower(s)) == Lower(s)
  {
    forall i | 0 <= i < |s|
      ensures Lower(Lower(s))[i] == Lower(s)[i]
    {
      CaseCharFacts(s[i]);
    }
  }

  /** Lower-casing leaves text without upper-case letters unchanged. */
  lemma {:induction false} LowerKeepsLower(s: string)
    requires forall i | 0 <= i < |s| :: !IsUpperLetter(s[i])
    ensures Lower(s) == s
  {
    if |s| > 0 {
      LowerKeepsLower(s[1..]);
      assert Lower(s) == [LowerChar(s[0])] + Lower(s[1..]);
    }
  }

  /** Upper-casing forgets any earlier lower-casing: matching on the
      upper-cased text is case-insensitive. */
  lemma UpperOfLower(s: string)
    ensures Upper(Lower(s)) == Upper(s)
  {
    forall i | 0 <= i < |s|
      ensures Upper(Lower(s))[i] == Upper(s)[i]
    {
      CaseCharFacts(s[i]);
    }
  }

  lemma UpperOfUpper(s: string)
    ensures Upper(Upper(s)) == Upper(s)
  {
    forall i | 0 <= i < |s|
      ensures Upper(Upper(s))[i] == Upper(s)[i]
    {
      CaseCharFacts(s[i]);
    }
  }

  lemma LowerOfUpper(s: string)
    ensures Lower(Upper(s)) == Lower(s)
  {
    forall i | 0 <= i < |s|
      ensures Lower(Upper(s))[i] == Lower(s)[i]
    {
      CaseCharFacts(s[i]);
    }
  }

  /** The identifier normalisation is idempotent: normalising an already
      normalised identifier or column name changes nothing. */
  lemma StandardizeIdempotent(s: string)
    ensures Standardize(Standardize(s)) == Standardize(s)
  {
    StripLower(Strip(s));
    StripIdempotent(s);
    LowerIdempotent(Strip(s));
  }

  /** Case and surrounding white space do not matter to `Standardize`. */
  lemma StandardizeIgnoresCaseAndSpace(s: string)
    ensures Standardize(Upper(s)) == Standardize(s)
    ensures Standardize(Strip(s)) == Standardize(s)
  {
    StripUpper(s);
    StripIdempotent(s);
    LowerOfUpper(Strip(s));
  }
}
