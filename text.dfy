/** JavaScript strings as the feed fetcher sees them: sequences of UTF-16 code
    units, with the few String.prototype operations the core relies on
    (includes, trim). */
module Text {

  datatype Option<+T> = None | Some(value: T)

  /** One UTF-16 code unit. JavaScript strings may hold lone surrogates, so a
      code unit is any 16-bit value and not a Dafny `char`. */
  type CodeUnit = c: int | 0 <= c < 0x1_0000

  /** A JavaScript string value. */
  type Str = seq<CodeUnit>

  /** `pat` occurs in `s` starting at index `i`. */
  predicate OccursAt(s: Str, i: int, pat: Str) {
    0 <= i && i + |pat| <= |s| && s[i..i + |pat|] == pat
  }

  /** The index of the first occurrence of `pat` in `s` at or after `from`. */
  function IndexOf(s: Str, pat: Str, from: nat): (r: Option<nat>)
    ensures r.Some? ==> from <= r.value && OccursAt(s, r.value, pat)
    ensures r.Some? ==> forall k :: from <= k < r.value ==> !OccursAt(s, k, pat)
    ensures r.None? ==> forall k :: from <= k ==> !OccursAt(s, k, pat)
    decreases |s| - from
  {
    if from + |pat| > |s| then None
    else if OccursAt(s, from, pat) then Some(from)
    else IndexOf(s, pat, from + 1)
  }

  /** String.prototype.includes. */
  function Includes(s: Str, pat: Str): (b: bool)
    ensures b <==> exists k :: OccursAt(s, k, pat)
  {
    IndexOf(s, pat, 0).Some?
  }

  /** The code units String.prototype.trim removes: WhiteSpace (tab, VT, FF,
      ZWNBSP and the Unicode space separators) and LineTerminator (LF, CR,
      LS, PS). */
  predicate IsWhitespace(c: CodeUnit) {
    c == 0x09 || c == 0x0A || c == 0x0B || c == 0x0C || c == 0x0D
    || c == 0x20 || c == 0xA0 || c == 0x1680 || 0x2000 <= c <= 0x200A
    || c == 0x2028 || c == 0x2029 || c == 0x202F || c == 0x205F
    || c == 0x3000 || c == 0xFEFF
  }

  /** The number of whitespace code units at the start of `s`. */
  function LeadingWhitespace(s: Str): (n: nat)
    ensures n <= |s|
    ensures forall k :: 0 <= k < n ==> IsWhitespace(s[k])
    ensures n < |s| ==> !IsWhitespace(s[n])
  {
    if s != [] && IsWhitespace(s[0]) then 1 + LeadingWhitespace(s[1..]) else 0
  }

  /** The number of whitespace code units at the end of `s`. */
  function TrailingWhitespace(s: Str): (n: nat)
    ensures n <= |s|
    ensures forall k :: |s| - n <= k < |s| ==> IsWhitespace(s[k])
    ensures n < |s| ==> !IsWhitespace(s[|s| - 1 - n])
  {
    if s != [] && IsWhitespace(s[|s| - 1]) then 1 + TrailingWhitespace(s[..|s| - 1]) else 0
  }

  /** `r` is the slice of `s` at offset `a`, and everything before and after
      that slice is whitespace. */
  predicate IsSliceAmidWhitespace(s: Str, r: Str, a: int) {
    0 <= a && a + |r| <= |s| && r == s[a..a + |r|]
    && (forall k :: 0 <= k < a ==> IsWhitespace(s[k]))
    && (forall k :: a + |r| <= k < |s| ==> IsWhitespace(s[k]))
  }

  /** String.prototype.trim: `s` without its leading and trailing whitespace.
      The result is a slice of `s`, everything cut away is whitespace, and
      the result neither starts nor ends with whitespace. */
  function Trim(s: Str): (r: Str)
    ensures exists a :: IsSliceAmidWhitespace(s, r, a)
    ensures r != [] ==> !IsWhitespace(r[0]) && !IsWhitespace(r[|r| - 1])
  {
    var a := LeadingWhitespace(s);
    var rest := s[a..];
    var b := |s| - TrailingWhitespace(rest);
    assert rest != [] ==> !IsWhitespace(rest[0]);
    assert IsSliceAmidWhitespace(s, s[a..b], a);
    s[a..b]
  }

  /** Trimming keeps every occurrence of a pattern that neither starts nor
      ends with whitespace. */
  lemma {:induction false} TrimKeepsOccurrence(s: Str, pat: Str, i: int)
    requires OccursAt(s, i, pat)
    requires pat != [] && !IsWhitespace(pat[0]) && !IsWhitespace(pat[|pat| - 1])
    ensures Includes(Trim(s), pat)
  {
    var r := Trim(s);
    var a :| IsSliceAmidWhitespace(s, r, a);
    assert s[i] == pat[0];
    assert s[i + |pat| - 1] == pat[|pat| - 1];
    assert a <= i;
    assert i + |pat| <= a + |r|;
    assert forall k :: i - a <= k < i - a + |pat| ==> r[k] == s[a + k];
    assert r[i - a..i - a + |pat|] == s[i..i + |pat|];
    assert OccursAt(r, i - a, pat);
  }

  /** Trimming a string without surrounding whitespace leaves it as it is. */
  lemma TrimNoWhitespace(s: Str)
    requires s != [] ==> !IsWhitespace(s[0]) && !IsWhitespace(s[|s| - 1])
    ensures Trim(s) == s
  {
  }
}
