/** sanitizeXml: removal of the C0 control code units that the Char
    production of XML 1.0 (section 2.2) does not allow. */
module XmlSanitizer {
  import opened Text

  /** The code units deleted by the sanitiser: 0x00-0x08, 0x0B, 0x0C and
      0x0E-0x1F. Tab (0x09), LF (0x0A) and CR (0x0D) are allowed. */
  predicate IsForbidden(c: CodeUnit) {
    c <= 0x08 || c == 0x0B || c == 0x0C || 0x0E <= c <= 0x1F
  }

  /** `r` can be obtained from `s` by deleting code units, keeping the order of
      the rest. */
  predicate IsSubsequence(r: Str, s: Str)
    decreases |s|
  {
    if r == [] then true
    else if s == [] then false
    else if r[0] == s[0] then IsSubsequence(r[1..], s[1..])
    else IsSubsequence(r, s[1..])
  }

  /** A global replace of the forbidden class by the empty string: the input
      with every forbidden code unit deleted. The result holds no forbidden
      unit. */
  function Sanitize(s: Str): (r: Str)
    ensures forall k :: 0 <= k < |r| ==> !IsForbidden(r[k])
  {
    if s == [] then []
    else
      var rest := Sanitize(s[1..]);
      if IsForbidden(s[0]) then rest else [s[0]] + rest
  }

  /** Every allowed code unit (tab, LF and CR among them) occurs in the result
      as often as in the input; no forbidden one occurs. */
  lemma {:induction false} SanitizeKeepsAllowed(s: Str)
    ensures forall c :: !IsForbidden(c) ==> multiset(Sanitize(s))[c] == multiset(s)[c]
    ensures forall c :: IsForbidden(c) ==> multiset(Sanitize(s))[c] == 0
  {
    if s != [] {
      SanitizeKeepsAllowed(s[1..]);
      assert s == [s[0]] + s[1..];
    }
  }

  /** The allowed code units keep their original order. */
  lemma {:induction false} SanitizeIsSubsequence(s: Str)
    ensures IsSubsequence(Sanitize(s), s)
  {
    if s != [] {
      SanitizeIsSubsequence(s[1..]);
    }
  }

  /** Sanitising a string with no forbidden unit leaves it unchanged. */
  lemma {:induction false} SanitizeIdentity(s: Str)
    requires forall k :: 0 <= k < |s| ==> !IsForbidden(s[k])
    ensures Sanitize(s) == s
  {
    if s != [] {
      SanitizeIdentity(s[1..]);
    }
  }

  /** Sanitising is idempotent. */
  lemma {:induction false} SanitizeIdempotent(s: Str)
    ensures Sanitize(Sanitize(s)) == Sanitize(s)
  {
    SanitizeIdentity(Sanitize(s));
  }

  /** Sanitising distributes over concatenation, so each code unit is kept or
      deleted on its own. */
  lemma {:induction false} SanitizeConcat(a: Str, b: Str)
    ensures Sanitize(a + b) == Sanitize(a) + Sanitize(b)
  {
    if a == [] {
      assert a + b == b;
    } else {
      assert (a + b)[0] == a[0] && (a + b)[1..] == a[1..] + b;
      SanitizeConcat(a[1..], b);
    }
  }

  /** A NUL between allowed units disappears; tab, LF and CR stay. */
  lemma SanitizeExample(x: CodeUnit, y: CodeUnit)
    requires !IsForbidden(x) && !IsForbidden(y)
    ensures Sanitize([x, 0x09, 0x00, 0x0A, y, 0x0D]) == [x, 0x09, 0x0A, y, 0x0D]
  {
    var s: Str := [x, 0x09, 0x00, 0x0A, y, 0x0D];
    var tail: Str := [0x0A, y, 0x0D];
    assert s[1..][1..][1..] == tail;
    SanitizeIdentity(tail);
    assert Sanitize(s[1..][1..]) == tail;
    assert Sanitize(s[1..]) == [0x09] + tail;
  }
}
