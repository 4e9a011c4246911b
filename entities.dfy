/** decodeHtmlEntities: a fixed chain of global, left-to-right replacement
    passes. Five passes handle the predefined entities of XML 1.0 section 4.6
    (lt, gt, amp, quot, apos, in that order); two more handle hexadecimal
    and then decimal character references (XML 1.0 section 4.1). A numeric
    reference becomes the single code unit String.fromCharCode gives for its
    value, the value modulo 65536. */
module EntityDecoder {
  import opened Text

  const Amp: CodeUnit := 0x26        // &
  const Lt: CodeUnit := 0x3C         // <
  const Gt: CodeUnit := 0x3E         // >
  const Quot: CodeUnit := 0x22       // "
  const Apos: CodeUnit := 0x27       // '
  const Semicolon: CodeUnit := 0x3B  // ;

  const LtRef: Str := [Amp, 0x6C, 0x74, Semicolon]                 // &lt;
  const GtRef: Str := [Amp, 0x67, 0x74, Semicolon]                 // &gt;
  const AmpRef: Str := [Amp, 0x61, 0x6D, 0x70, Semicolon]          // &amp;
  const QuotRef: Str := [Amp, 0x71, 0x75, 0x6F, 0x74, Semicolon]   // &quot;
  const AposRef: Str := [Amp, 0x61, 0x70, 0x6F, 0x73, Semicolon]   // &apos;

  /** The fixed text before the digits of a hexadecimal (`&#x`) and of a
      decimal (`&#`) character reference. The `x` is lower case only. */
  const HexPrefix: Str := [Amp, 0x23, 0x78]
  const DecPrefix: Str := [Amp, 0x23]

  // ---------------------------------------------------------------------
  // One literal pass: str.replace(/pat/g, rep)
  // ---------------------------------------------------------------------

  /** A global replace whose pattern is a literal string: scanning left to
      right, each occurrence of `pat` that does not overlap an earlier
      replaced one becomes `rep`; replaced text is not scanned again. */
  function ReplaceAll(s: Str, pat: Str, rep: Str): Str
    requires pat != []
    decreases |s|
  {
    if s == [] then []
    else if OccursAt(s, 0, pat) then rep + ReplaceAll(s[|pat|..], pat, rep)
    else [s[0]] + ReplaceAll(s[1..], pat, rep)
  }

  /** `pat` does not start `s` when they differ at some index. */
  lemma MismatchAt(s: Str, pat: Str, k: int)
    requires 0 <= k < |pat| && k < |s| && s[k] != pat[k]
    ensures !OccursAt(s, 0, pat)
  {
    if |pat| <= |s| {
      assert s[0..|pat|][k] == s[k];
    }
  }

  /** Text that does not contain the first unit of the pattern is copied
      unchanged by the pass. */
  lemma {:induction false} ReplaceAllSkip(w: Str, t: Str, pat: Str, rep: Str)
    requires pat != [] && pat[0] !in w
    ensures ReplaceAll(w + t, pat, rep) == w + ReplaceAll(t, pat, rep)
  {
    if w == [] {
      assert w + t == t;
    } else {
      var s := w + t;
      assert s[0] == w[0] && s[1..] == w[1..] + t;
      MismatchAt(s, pat, 0);
      ReplaceAllSkip(w[1..], t, pat, rep);
      assert w == [w[0]] + w[1..];
    }
  }

  /** An occurrence at the start is replaced and the scan resumes after it. */
  lemma ReplaceAllHit(t: Str, pat: Str, rep: Str)
    requires pat != []
    ensures ReplaceAll(pat + t, pat, rep) == rep + ReplaceAll(t, pat, rep)
  {
    var s := pat + t;
    assert s[0..|pat|] == pat && s[|pat|..] == t;
  }

  /** An occurrence in the tail is an occurrence one place further on. */
  lemma OccursInTail(s: Str, k: nat, pat: Str)
    requires s != []
    ensures OccursAt(s[1..], k, pat) == OccursAt(s, k + 1, pat)
  {
    if 0 <= k && k + |pat| <= |s| - 1 {
      assert s[1..][k..k + |pat|] == s[k + 1..k + 1 + |pat|];
    }
  }

  /** A pass changes nothing in a string where its pattern does not occur. */
  lemma {:induction false} ReplaceAllNoMatch(s: Str, pat: Str, rep: Str)
    requires pat != []
    requires forall k :: !OccursAt(s, k, pat)
    ensures ReplaceAll(s, pat, rep) == s
  {
    if s != [] {
      forall k
        ensures !OccursAt(s[1..], k, pat)
      {
        if k >= 0 {
          OccursInTail(s, k, pat);
        }
      }
      ReplaceAllNoMatch(s[1..], pat, rep);
    }
  }

  /** A pass whose pattern starts with `&` changes nothing in a string whose
      only `&` is at the start and does not begin the pattern. */
  lemma PassMissAtAmp(s: Str, pat: Str, rep: Str)
    requires pat != [] && pat[0] == Amp
    requires s != [] && !OccursAt(s, 0, pat) && Amp !in s[1..]
    ensures ReplaceAll(s, pat, rep) == s
  {
    ReplaceAllSkip(s[1..], [], pat, rep);
    assert s[1..] + [] == s[1..];
    assert s == [s[0]] + s[1..];
  }

  // ---------------------------------------------------------------------
  // The numeric passes: str.replace(/prefix(digits+);/g, fromCharCode)
  // ---------------------------------------------------------------------

  /** The value of `c` as a hexadecimal digit (0-9, A-F, a-f), or -1. */
  function DigitValue(c: CodeUnit): int {
    if 0x30 <= c <= 0x39 then c - 0x30
    else if 0x41 <= c <= 0x46 then c - 0x41 + 10
    else if 0x61 <= c <= 0x66 then c - 0x61 + 10
    else -1
  }

  /** `c` is a digit in base `radix`: with radix 16 the class [0-9A-Fa-f],
      with radix 10 the class \d, that is [0-9]. */
  predicate IsDigit(c: CodeUnit, radix: nat) {
    0 <= DigitValue(c) < radix
  }

  /** The length of the longest run of digits starting at `from`. */
  function DigitRun(s: Str, from: nat, radix: nat): (n: nat)
    ensures n > 0 ==> from + n <= |s|
    ensures forall k :: from <= k < from + n ==> IsDigit(s[k], radix)
    ensures from + n < |s| ==> !IsDigit(s[from + n], radix)
    decreases |s| - from
  {
    if from < |s| && IsDigit(s[from], radix) then 1 + DigitRun(s, from + 1, radix) else 0
  }

  /** The number a digit string denotes (parseInt(d, 16), or Number(d) for
      decimal digits), exactly. */
  function DigitsValue(d: Str, radix: nat): nat
    requires forall k :: 0 <= k < |d| ==> IsDigit(d[k], radix)
  {
    if d == [] then 0
    else
      var init := d[..|d| - 1];
      assert forall k :: 0 <= k < |init| ==> init[k] == d[k];
      assert IsDigit(d[|d| - 1], radix);
      var high := DigitsValue(init, radix);
      MulNat(high, radix);
      high * radix + DigitValue(d[|d| - 1])
  }

  /** A product of naturals is a natural. */
  lemma MulNat(a: nat, b: nat)
    ensures a * b >= 0
  {
  }

  /** When `s` starts with a reference `prefix`, one or more digits and `;`,
      the number of digits; otherwise 0. The digit class is greedy, and the
      reference matches just when the whole run of digits is followed by `;`. */
  function RefDigitCount(s: Str, prefix: Str, radix: nat): (n: nat)
    ensures n > 0 ==> OccursAt(s, 0, prefix) && |prefix| + n < |s| && s[|prefix| + n] == Semicolon
    ensures n > 0 ==> forall k :: |prefix| <= k < |prefix| + n ==> IsDigit(s[k], radix)
  {
    if OccursAt(s, 0, prefix) then
      var n := DigitRun(s, |prefix|, radix);
      if n > 0 && |prefix| + n < |s| && s[|prefix| + n] == Semicolon then n else 0
    else 0
  }

  /** The digits of the reference at the start of `s`. */
  function RefDigits(s: Str, prefix: Str, radix: nat): (d: Str)
    requires RefDigitCount(s, prefix, radix) > 0
    ensures forall k :: 0 <= k < |d| ==> IsDigit(d[k], radix)
  {
    var n := RefDigitCount(s, prefix, radix);
    var d := s[|prefix|..|prefix| + n];
    assert forall k :: 0 <= k < |d| ==> d[k] == s[|prefix| + k];
    d
  }

  /** A global replace of the references `prefix digits ;` by the code unit
      String.fromCharCode yields for their value: the value modulo 65536. */
  function ReplaceNumericRefs(s: Str, prefix: Str, radix: nat): Str
    decreases |s|
  {
    if s == [] then []
    else
      var n := RefDigitCount(s, prefix, radix);
      if n > 0 then
        [DigitsValue(RefDigits(s, prefix, radix), radix) % 0x1_0000]
        + ReplaceNumericRefs(s[|prefix| + n + 1..], prefix, radix)
      else [s[0]] + ReplaceNumericRefs(s[1..], prefix, radix)
  }

  /** Text that does not contain the first unit of the prefix is copied
      unchanged by a numeric pass. */
  lemma {:induction false} NumericSkip(w: Str, t: Str, prefix: Str, radix: nat)
    requires prefix != [] && prefix[0] !in w
    ensures ReplaceNumericRefs(w + t, prefix, radix) == w + ReplaceNumericRefs(t, prefix, radix)
  {
    if w == [] {
      assert w + t == t;
    } else {
      var s := w + t;
      assert s[0] == w[0] && s[1..] == w[1..] + t;
      MismatchAt(s, prefix, 0);
      assert RefDigitCount(s, prefix, radix) == 0;
      assert ReplaceNumericRefs(s, prefix, radix) == [w[0]] + ReplaceNumericRefs(w[1..] + t, prefix, radix);
      NumericSkip(w[1..], t, prefix, radix);
      assert w == [w[0]] + w[1..];
    }
  }

  /** The run of digits starting at `from` is exactly `d` when `d` is there
      and is not followed by another digit. */
  lemma {:induction false} DigitRunIs(s: Str, from: nat, d: Str, radix: nat)
    requires from + |d| <= |s| && s[from..from + |d|] == d
    requires forall k :: 0 <= k < |d| ==> IsDigit(d[k], radix)
    requires from + |d| < |s| ==> !IsDigit(s[from + |d|], radix)
    ensures DigitRun(s, from, radix) == |d|
    decreases |d|
  {
    if d != [] {
      assert s[from] == d[0];
      assert s[from + 1..from + 1 + |d[1..]|] == d[1..];
      DigitRunIs(s, from + 1, d[1..], radix);
    }
  }

  /** A reference at the start is replaced by the code unit of its value and
      the scan resumes after its `;`. */
  lemma NumericHit(d: Str, t: Str, prefix: Str, radix: nat)
    requires d != [] && forall k :: 0 <= k < |d| ==> IsDigit(d[k], radix)
    ensures ReplaceNumericRefs(prefix + d + [Semicolon] + t, prefix, radix)
            == [DigitsValue(d, radix) % 0x1_0000] + ReplaceNumericRefs(t, prefix, radix)
  {
    var s := prefix + d + [Semicolon] + t;
    var p := |prefix|;
    assert s[0..p] == prefix;
    assert s[p..p + |d|] == d;
    assert s[p + |d|] == Semicolon;
    DigitRunIs(s, p, d, radix);
    assert RefDigitCount(s, prefix, radix) == |d|;
    assert RefDigits(s, prefix, radix) == d;
    assert s[p + |d| + 1..] == t;
  }

  /** A numeric pass changes nothing where no reference starts. */
  lemma {:induction false} NumericIdentity(s: Str, prefix: Str, radix: nat)
    requires forall k :: 0 <= k < |s| ==> RefDigitCount(s[k..], prefix, radix) == 0
    ensures ReplaceNumericRefs(s, prefix, radix) == s
  {
    if s != [] {
      assert s[0..] == s;
      forall k | 0 <= k < |s[1..]|
        ensures RefDigitCount(s[1..][k..], prefix, radix) == 0
      {
        assert s[1..][k..] == s[k + 1..];
      }
      NumericIdentity(s[1..], prefix, radix);
    }
  }

  /** With no `;` in the input no reference can match. */
  lemma NumericNoSemicolon(s: Str, prefix: Str, radix: nat)
    requires Semicolon !in s
    ensures ReplaceNumericRefs(s, prefix, radix) == s
  {
    forall k | 0 <= k < |s|
      ensures RefDigitCount(s[k..], prefix, radix) == 0
    {
      assert forall j :: 0 <= j < |s| - k ==> s[k..][j] == s[k + j];
    }
    NumericIdentity(s, prefix, radix);
  }

  /** A numeric pass changes nothing in a string whose only `&` is at the
      start and does not begin the prefix. */
  lemma NumericMissAtAmp(s: Str, prefix: Str, radix: nat)
    requires prefix != [] && prefix[0] == Amp
    requires s != [] && !OccursAt(s, 0, prefix) && Amp !in s[1..]
    ensures ReplaceNumericRefs(s, prefix, radix) == s
  {
    NumericSkip(s[1..], [], prefix, radix);
    assert s[1..] + [] == s[1..];
    assert s == [s[0]] + s[1..];
  }

  // ---------------------------------------------------------------------
  // The decoder
  // ---------------------------------------------------------------------

  /** The five named passes of decodeHtmlEntities, in source order. */
  function NamedPasses(s: Str): Str {
    var s1 := ReplaceAll(s, LtRef, [Lt]);
    var s2 := ReplaceAll(s1, GtRef, [Gt]);
    var s3 := ReplaceAll(s2, AmpRef, [Amp]);
    var s4 := ReplaceAll(s3, QuotRef, [Quot]);
    ReplaceAll(s4, AposRef, [Apos])
  }

  /** The two numeric passes of decodeHtmlEntities: hexadecimal, then
      decimal. */
  function NumericPasses(s: Str): Str {
    ReplaceNumericRefs(ReplaceNumericRefs(s, HexPrefix, 16), DecPrefix, 10)
  }

  /** decodeHtmlEntities in src/utils.js: lt, gt, amp, quot, apos, then hex
      and decimal references, each pass over the output of the previous one. */
  function Decode(s: Str): Str {
    NumericPasses(NamedPasses(s))
  }

  /** Every pass pattern starts with `&`, so a string without `&` passes
      through unchanged. */
  lemma DecodeNoAmp(s: Str)
    requires Amp !in s
    ensures Decode(s) == s
  {
    PassesKeepNoAmp(s);
  }

  /** Each single pass leaves a string without `&` unchanged. */
  lemma PassesKeepNoAmp(s: Str)
    requires Amp !in s
    ensures ReplaceAll(s, LtRef, [Lt]) == s && ReplaceAll(s, GtRef, [Gt]) == s
    ensures ReplaceAll(s, AmpRef, [Amp]) == s && ReplaceAll(s, QuotRef, [Quot]) == s
    ensures ReplaceAll(s, AposRef, [Apos]) == s
    ensures ReplaceNumericRefs(s, HexPrefix, 16) == s && ReplaceNumericRefs(s, DecPrefix, 10) == s
  {
    assert s + [] == s;
    ReplaceAllSkip(s, [], LtRef, [Lt]);
    ReplaceAllSkip(s, [], GtRef, [Gt]);
    ReplaceAllSkip(s, [], AmpRef, [Amp]);
    ReplaceAllSkip(s, [], QuotRef, [Quot]);
    ReplaceAllSkip(s, [], AposRef, [Apos]);
    NumericSkip(s, [], HexPrefix, 16);
    NumericSkip(s, [], DecPrefix, 10);
  }

  /** Text in which no named entity occurs and no numeric reference matches
      (an unrecognised `&name;`, a lone `&`, `&#;`, `&#zz;`) passes through
      unchanged. */
  lemma DecodeUnrecognised(s: Str)
    requires forall k :: !OccursAt(s, k, LtRef) && !OccursAt(s, k, GtRef) && !OccursAt(s, k, AmpRef)
    requires forall k :: !OccursAt(s, k, QuotRef) && !OccursAt(s, k, AposRef)
    requires forall k :: 0 <= k < |s| ==>
      RefDigitCount(s[k..], HexPrefix, 16) == 0 && RefDigitCount(s[k..], DecPrefix, 10) == 0
    ensures Decode(s) == s
  {
    ReplaceAllNoMatch(s, LtRef, [Lt]);
    ReplaceAllNoMatch(s, GtRef, [Gt]);
    ReplaceAllNoMatch(s, AmpRef, [Amp]);
    ReplaceAllNoMatch(s, QuotRef, [Quot]);
    ReplaceAllNoMatch(s, AposRef, [Apos]);
    NumericIdentity(s, HexPrefix, 16);
    NumericIdentity(s, DecPrefix, 10);
  }

  /** `&#;` (no digits) is not a reference and passes through. */
  lemma DecodeEmptyNumericRef(s: Str)
    requires s == DecPrefix + [Semicolon]
    ensures Decode(s) == s
  {
    assert s[1..] == [0x23, Semicolon];
    NamedPassesKeepHashRef(s);
    MismatchAt(s, HexPrefix, 2);
    NumericMissAtAmp(s, HexPrefix, 16);
    assert DigitRun(s, 2, 10) == 0;
    assert RefDigitCount(s, DecPrefix, 10) == 0;
    NumericSkip(s[1..], [], DecPrefix, 10);
    assert s[1..] + [] == s[1..];
    assert s == [s[0]] + s[1..];
  }

  /** Each predefined entity on its own decodes to its character. */
  lemma DecodeLtRef()
    ensures Decode(LtRef) == [Lt]
  {
    assert LtRef + [] == LtRef;
    ReplaceAllHit([], LtRef, [Lt]);
    PassesKeepNoAmp([Lt]);
  }

  lemma DecodeGtRef()
    ensures Decode(GtRef) == [Gt]
  {
    assert GtRef + [] == GtRef;
    MismatchAt(GtRef, LtRef, 1);
    PassMissAtAmp(GtRef, LtRef, [Lt]);
    ReplaceAllHit([], GtRef, [Gt]);
    PassesKeepNoAmp([Gt]);
  }

  lemma DecodeAmpRef()
    ensures Decode(AmpRef) == [Amp]
  {
    assert AmpRef + [] == AmpRef;
    MismatchAt(AmpRef, LtRef, 1);
    PassMissAtAmp(AmpRef, LtRef, [Lt]);
    MismatchAt(AmpRef, GtRef, 1);
    PassMissAtAmp(AmpRef, GtRef, [Gt]);
    ReplaceAllHit([], AmpRef, [Amp]);
    ShortIsUnchanged([Amp]);
  }

  lemma DecodeQuotRef()
    ensures Decode(QuotRef) == [Quot]
  {
    assert QuotRef + [] == QuotRef;
    MismatchAt(QuotRef, LtRef, 1);
    PassMissAtAmp(QuotRef, LtRef, [Lt]);
    MismatchAt(QuotRef, GtRef, 1);
    PassMissAtAmp(QuotRef, GtRef, [Gt]);
    MismatchAt(QuotRef, AmpRef, 1);
    PassMissAtAmp(QuotRef, AmpRef, [Amp]);
    ReplaceAllHit([], QuotRef, [Quot]);
    PassesKeepNoAmp([Quot]);
  }

  lemma DecodeAposRef()
    ensures Decode(AposRef) == [Apos]
  {
    assert AposRef + [] == AposRef;
    MismatchAt(AposRef, LtRef, 1);
    PassMissAtAmp(AposRef, LtRef, [Lt]);
    MismatchAt(AposRef, GtRef, 1);
    PassMissAtAmp(AposRef, GtRef, [Gt]);
    MismatchAt(AposRef, AmpRef, 2);
    PassMissAtAmp(AposRef, AmpRef, [Amp]);
    MismatchAt(AposRef, QuotRef, 1);
    PassMissAtAmp(AposRef, QuotRef, [Quot]);
    ReplaceAllHit([], AposRef, [Apos]);
    PassesKeepNoAmp([Apos]);
  }

  /** The passes after amp leave a single code unit alone. */
  lemma ShortIsUnchanged(s: Str)
    requires |s| == 1
    ensures ReplaceAll(s, QuotRef, [Quot]) == s && ReplaceAll(s, AposRef, [Apos]) == s
    ensures ReplaceNumericRefs(s, HexPrefix, 16) == s && ReplaceNumericRefs(s, DecPrefix, 10) == s
  {
    ShortPassUnchanged(s, QuotRef, [Quot]);
    ShortPassUnchanged(s, AposRef, [Apos]);
    ShortNumericUnchanged(s, HexPrefix, 16);
    ShortNumericUnchanged(s, DecPrefix, 10);
  }

  /** A pass leaves a string shorter than its pattern alone. */
  lemma ShortPassUnchanged(s: Str, pat: Str, rep: Str)
    requires |s| == 1 && |pat| >= 2
    ensures ReplaceAll(s, pat, rep) == s
  {
    assert !OccursAt(s, 0, pat);
    assert s[1..] == [];
    assert ReplaceAll(s, pat, rep) == [s[0]] + ReplaceAll([], pat, rep);
  }

  /** A numeric pass leaves a string shorter than its prefix alone. */
  lemma ShortNumericUnchanged(s: Str, prefix: Str, radix: nat)
    requires |s| == 1 && |prefix| >= 2
    ensures ReplaceNumericRefs(s, prefix, radix) == s
  {
    assert !OccursAt(s, 0, prefix);
    assert RefDigitCount(s, prefix, radix) == 0;
    assert s[1..] == [];
    assert ReplaceNumericRefs(s, prefix, radix) == [s[0]] + ReplaceNumericRefs([], prefix, radix);
  }

  /** No named pass changes a string that starts with `&#` and has no other
      `&`. */
  lemma NamedPassesKeepHashRef(s: Str)
    requires |s| >= 2 && s[0] == Amp && s[1] == 0x23 && Amp !in s[1..]
    ensures NamedPasses(s) == s
  {
    MismatchAt(s, LtRef, 1);
    PassMissAtAmp(s, LtRef, [Lt]);
    MismatchAt(s, GtRef, 1);
    PassMissAtAmp(s, GtRef, [Gt]);
    MismatchAt(s, AmpRef, 1);
    PassMissAtAmp(s, AmpRef, [Amp]);
    MismatchAt(s, QuotRef, 1);
    PassMissAtAmp(s, QuotRef, [Quot]);
    MismatchAt(s, AposRef, 1);
    PassMissAtAmp(s, AposRef, [Apos]);
  }

  /** The shape of `&#` + decimal digits + `;`: `&`, `#`, no `x`, and no
      other `&`. */
  lemma DecRefShape(s: Str, d: Str)
    requires d != [] && forall k :: 0 <= k < |d| ==> IsDigit(d[k], 10)
    requires s == DecPrefix + d + [Semicolon]
    ensures |s| >= 3 && s[0] == Amp && s[1] == 0x23 && s[2] != 0x78 && Amp !in s[1..]
  {
    assert s[2] == d[0];
    assert s[1..] == [0x23] + d + [Semicolon];
    assert forall k :: 0 <= k < |d| ==> d[k] != Amp;
  }

  /** The shape of `&#x` + hexadecimal digits + `;`: `&`, `#`, and no other
      `&`. */
  lemma HexRefShape(s: Str, d: Str)
    requires forall k :: 0 <= k < |d| ==> IsDigit(d[k], 16)
    requires s == HexPrefix + d + [Semicolon]
    ensures |s| >= 2 && s[0] == Amp && s[1] == 0x23 && Amp !in s[1..]
  {
    assert s[1..] == [0x23, 0x78] + d + [Semicolon];
    assert forall k :: 0 <= k < |d| ==> d[k] != Amp;
  }

  /** The hexadecimal pass leaves a string starting `&#` but not `&#x`, with no
      other `&`, alone. */
  lemma HexPassMissesDecRef(s: Str)
    requires |s| >= 3 && s[0] == Amp && s[1] == 0x23 && s[2] != 0x78 && Amp !in s[1..]
    ensures ReplaceNumericRefs(s, HexPrefix, 16) == s
  {
    MismatchAt(s, HexPrefix, 2);
    NumericMissAtAmp(s, HexPrefix, 16);
  }

  /** A whole string that is one reference becomes one code unit. */
  lemma NumericHitAlone(s: Str, d: Str, prefix: Str, radix: nat)
    requires d != [] && forall k :: 0 <= k < |d| ==> IsDigit(d[k], radix)
    requires s == prefix + d + [Semicolon]
    ensures ReplaceNumericRefs(s, prefix, radix) == [DigitsValue(d, radix) % 0x1_0000]
  {
    assert s == prefix + d + [Semicolon] + [];
    NumericHit(d, [], prefix, radix);
  }

  /** A hexadecimal reference `&#x` + digits (either case) + `;` decodes to the
      code unit of its value modulo 65536. */
  lemma DecodeHexRef(s: Str, d: Str)
    requires d != [] && forall k :: 0 <= k < |d| ==> IsDigit(d[k], 16)
    requires s == HexPrefix + d + [Semicolon]
    ensures Decode(s) == [DigitsValue(d, 16) % 0x1_0000]
  {
    HexRefShape(s, d);
    NamedPassesKeepHashRef(s);
    NumericHitAlone(s, d, HexPrefix, 16);
    ShortIsUnchanged([DigitsValue(d, 16) % 0x1_0000]);
  }

  /** A decimal reference `&#` + digits + `;` decodes to the code unit of its
      value modulo 65536. */
  lemma DecodeDecRef(s: Str, d: Str)
    requires d != [] && forall k :: 0 <= k < |d| ==> IsDigit(d[k], 10)
    requires s == DecPrefix + d + [Semicolon]
    ensures Decode(s) == [DigitsValue(d, 10) % 0x1_0000]
  {
    DecRefShape(s, d);
    NamedPassesKeepHashRef(s);
    HexPassMissesDecRef(s);
    NumericHitAlone(s, d, DecPrefix, 10);
  }

  /** The first three passes turn `&amp;` followed by text without `&` into
      `&` and that text. */
  lemma FirstPassesOnAmpRef(t: Str)
    requires Amp !in t
    ensures ReplaceAll(ReplaceAll(ReplaceAll(AmpRef + t, LtRef, [Lt]), GtRef, [Gt]), AmpRef, [Amp])
            == [Amp] + t
  {
    var s := AmpRef + t;
    assert s[1..] == AmpRef[1..] + t;
    assert Amp !in s[1..];
    MismatchAt(s, LtRef, 1);
    PassMissAtAmp(s, LtRef, [Lt]);
    MismatchAt(s, GtRef, 1);
    PassMissAtAmp(s, GtRef, [Gt]);
    ReplaceAllHit(t, AmpRef, [Amp]);
    PassesKeepNoAmp(t);
  }

  /** The quot and apos passes leave alone a string whose only `&` starts it
      and is followed by neither `q` nor `a`. */
  lemma LastNamedPassesMiss(u: Str)
    requires |u| >= 2 && u[0] == Amp && u[1] != 0x71 && u[1] != 0x61 && Amp !in u[1..]
    ensures ReplaceAll(ReplaceAll(u, QuotRef, [Quot]), AposRef, [Apos]) == u
  {
    MismatchAt(u, QuotRef, 1);
    PassMissAtAmp(u, QuotRef, [Quot]);
    MismatchAt(u, AposRef, 1);
    PassMissAtAmp(u, AposRef, [Apos]);
  }

  /** The decimal digits `60` denote the code of `<`. */
  lemma DecExampleValue(d: Str)
    requires d == [0x36, 0x30]
    ensures d != [] && forall k :: 0 <= k < |d| ==> IsDigit(d[k], 10)
    ensures DigitsValue(d, 10) % 0x1_0000 == Lt
  {
    assert d[..1] == [0x36];
    assert DigitsValue(d[..1], 10) == 6;
  }

  /** The amp pass runs before the numeric passes, so an escaped numeric
      reference is decoded twice: `&amp;#60;` becomes `<`. */
  lemma DecodeEscapedNumericRef(s: Str)
    requires s == AmpRef + [0x23, 0x36, 0x30, Semicolon]
    ensures Decode(s) == [Lt]
  {
    var d: Str := [0x36, 0x30];
    var t: Str := [0x23] + d + [Semicolon];
    assert s == AmpRef + t;
    var u := [Amp] + t;
    FirstPassesOnAmpRef(t);
    LastNamedPassesMiss(u);
    assert NamedPasses(s) == u;
    assert u == DecPrefix + d + [Semicolon];
    DecExampleValue(d);
    DecRefShape(u, d);
    HexPassMissesDecRef(u);
    NumericHitAlone(u, d, DecPrefix, 10);
  }

  /** The lt pass runs before the amp pass, so `&amp;lt;` decodes only to
      `&lt;`. */
  lemma DecodeEscapedNamedRef(s: Str)
    requires s == AmpRef + [0x6C, 0x74, Semicolon]
    ensures Decode(s) == LtRef
  {
    var t: Str := LtRef[1..];
    assert s == AmpRef + t;
    FirstPassesOnAmpRef(t);
    assert [Amp] + t == LtRef;
    LastNamedPassesMiss(LtRef);
    MismatchAt(LtRef, HexPrefix, 1);
    NumericMissAtAmp(LtRef, HexPrefix, 16);
    MismatchAt(LtRef, DecPrefix, 1);
    NumericMissAtAmp(LtRef, DecPrefix, 10);
  }

  // ---------------------------------------------------------------------
  // A reference escaper, and the round trip through the decoder
  // ---------------------------------------------------------------------

  /** The five characters with a predefined entity. */
  predicate IsSpecial(c: CodeUnit) {
    c == Lt || c == Gt || c == Amp || c == Quot || c == Apos
  }

  /** `r` looks like an entity reference: it starts with its only `&` and
      ends with its only `;`. */
  predicate RefLike(r: Str) {
    |r| >= 2 && r[0] == Amp && Amp !in r[1..]
    && r[|r| - 1] == Semicolon && Semicolon !in r[..|r| - 1]
  }

  /** The predefined entity of a special character. */
  function RefOf(c: CodeUnit): (r: Str)
    requires IsSpecial(c)
    ensures RefLike(r)
  {
    if c == Lt then LtRef
    else if c == Gt then GtRef
    else if c == Amp then AmpRef
    else if c == Quot then QuotRef
    else AposRef
  }

  /** Distinct characters have distinct entities. */
  lemma RefOfInjective(c: CodeUnit, e: CodeUnit)
    requires IsSpecial(c) && IsSpecial(e) && c != e
    ensures RefOf(c) != RefOf(e)
  {
    assert RefOf(c)[1] != RefOf(e)[1] || RefOf(c)[2] != RefOf(e)[2];
  }

  /** How `c` is written when the special characters outside `raw` are
      escaped. */
  function Piece(c: CodeUnit, raw: set<CodeUnit>): Str {
    if IsSpecial(c) && c !in raw then RefOf(c) else [c]
  }

  /** `s` with every special character outside `raw` replaced by its entity. */
  function EscapeExcept(s: Str, raw: set<CodeUnit>): Str {
    if s == [] then [] else Piece(s[0], raw) + EscapeExcept(s[1..], raw)
  }

  /** `s` with every special character replaced by its entity: the inverse the
      decoder is meant to undo. */
  function Escape(s: Str): Str {
    EscapeExcept(s, {})
  }

  /** Every `;` in `w` has an `&` somewhere before it. */
  predicate AmpBeforeEachSemicolon(w: Str) {
    forall j :: 0 <= j < |w| && w[j] == Semicolon ==> Amp in w[..j]
  }

  /** In escaped text without a literal `;`, every `;` closes an entity that
      began with `&`. */
  lemma {:induction false} EscapeAmpBefore(u: Str, raw: set<CodeUnit>)
    requires Semicolon !in u
    ensures AmpBeforeEachSemicolon(EscapeExcept(u, raw))
  {
    if u != [] {
      EscapeAmpBefore(u[1..], raw);
      var p := Piece(u[0], raw);
      var rest := EscapeExcept(u[1..], raw);
      var w := p + rest;
      forall j | 0 <= j < |w| && w[j] == Semicolon
        ensures Amp in w[..j]
      {
        if j < |p| {
          assert p[j] == Semicolon;
          assert p != [u[0]];
          assert w[0] == Amp && 0 < j;
          assert w[..j][0] == Amp;
        } else {
          assert rest[j - |p|] == Semicolon;
          var i :| 0 <= i < j - |p| && rest[..j - |p|][i] == Amp;
          assert w[..j][|p| + i] == Amp;
        }
      }
    }
  }

  /** `&` followed by escaped text never starts an entity: the entity's `;`
      would need an `&` of the text in front of it, inside the entity. */
  lemma AmpThenNoRef(w: Str, r: Str)
    requires RefLike(r) && AmpBeforeEachSemicolon(w)
    ensures !OccursAt([Amp] + w, 0, r)
  {
    var s := [Amp] + w;
    var n := |r|;
    if n <= |s| {
      if w[n - 2] != Semicolon {
        MismatchAt(s, r, n - 1);
      } else {
        var i :| 0 <= i < n - 2 && w[..n - 2][i] == Amp;
        assert s[i + 1] == Amp;
        assert r[1..][i] == r[i + 1];
        MismatchAt(s, r, i + 1);
      }
    }
  }

  /** One entity never starts with a different one. */
  lemma RefThenNoOtherRef(p: Str, r: Str, w: Str)
    requires RefLike(p) && RefLike(r) && p != r
    ensures !OccursAt(p + w, 0, r)
  {
    var s := p + w;
    if |r| < |p| {
      assert p[..|p| - 1][|r| - 1] == p[|r| - 1];
      MismatchAt(s, r, |r| - 1);
    } else if |r| == |p| {
      var k :| 0 <= k < |p| && p[k] != r[k];
      MismatchAt(s, r, k);
    } else {
      assert r[..|r| - 1][|p| - 1] == r[|p| - 1];
      MismatchAt(s, r, |p| - 1);
    }
  }

  /** Where the pattern does not start, a piece without another copy of the
      pattern's first unit is copied and the scan resumes after it. */
  lemma MissThenSkip(p: Str, w: Str, pat: Str, rep: Str)
    requires pat != [] && p != []
    requires !OccursAt(p + w, 0, pat) && pat[0] !in p[1..]
    ensures ReplaceAll(p + w, pat, rep) == p + ReplaceAll(w, pat, rep)
  {
    ReplaceAllMiss(p + w, pat, rep);
    ConsConcat(p, w);
    ReplaceAllSkip(p[1..], w, pat, rep);
    ConsConcat(p, ReplaceAll(w, pat, rep));
  }

  /** A non-empty p followed by x is its first unit, its tail, then x. */
  lemma ConsConcat(p: Str, x: Str)
    requires p != []
    ensures (p + x)[0] == p[0] && (p + x)[1..] == p[1..] + x
    ensures [p[0]] + (p[1..] + x) == p + x
  {
    assert [p[0]] + (p[1..] + x) == ([p[0]] + p[1..]) + x;
    assert [p[0]] + p[1..] == p;
  }

  /** Where the pattern does not start, the first unit is copied. */
  lemma ReplaceAllMiss(s: Str, pat: Str, rep: Str)
    requires pat != [] && s != [] && !OccursAt(s, 0, pat)
    ensures ReplaceAll(s, pat, rep) == [s[0]] + ReplaceAll(s[1..], pat, rep)
  {
  }

  /** The pass for a special character `c` decodes exactly the entities of
      `c` in escaped text with no literal `;` or no literal `&`. */
  lemma {:induction false} PassStep(u: Str, raw: set<CodeUnit>, c: CodeUnit)
    requires (Semicolon !in u || Amp !in u) && IsSpecial(c) && c !in raw
    ensures ReplaceAll(EscapeExcept(u, raw), RefOf(c), [c]) == EscapeExcept(u, raw + {c})
  {
    if u != [] {
      var r := RefOf(c);
      var x := u[0];
      var p := Piece(x, raw);
      var rest := EscapeExcept(u[1..], raw);
      assert EscapeExcept(u, raw) == p + rest;
      assert u == [x] + u[1..];
      PassStep(u[1..], raw, c);
      if x == c {
        ReplaceAllHit(rest, r, [c]);
      } else if IsSpecial(x) && x !in raw {
        RefOfInjective(x, c);
        RefThenNoOtherRef(p, r, rest);
        MissThenSkip(p, rest, r, [c]);
      } else if x == Amp {
        assert Semicolon !in u[1..] by { assert u == [x] + u[1..]; }
        EscapeAmpBefore(u[1..], raw);
        AmpThenNoRef(rest, r);
        MissThenSkip(p, rest, r, [c]);
      } else {
        ReplaceAllSkip(p, rest, r, [c]);
      }
    }
  }

  /** Escaping nothing is the identity. */
  lemma {:induction false} EscapeAllRaw(s: Str, raw: set<CodeUnit>)
    requires Lt in raw && Gt in raw && Amp in raw && Quot in raw && Apos in raw
    ensures EscapeExcept(s, raw) == s
  {
    if s != [] {
      EscapeAllRaw(s[1..], raw);
      assert s == [s[0]] + s[1..];
    }
  }

  /** Decoding undoes escaping for text without a literal `;` or without a
      literal `&`. */
  lemma DecodeEscapeRoundTrip(s: Str)
    requires Semicolon !in s || Amp !in s
    ensures Decode(Escape(s)) == s
  {
    PassStep(s, {}, Lt);
    assert {} + {Lt} == {Lt};
    PassStep(s, {Lt}, Gt);
    PassStep(s, {Lt, Gt}, Amp);
    assert {Lt} + {Gt} == {Lt, Gt};
    assert {Lt, Gt} + {Amp} == {Lt, Gt, Amp};
    PassStep(s, {Lt, Gt, Amp}, Quot);
    assert {Lt, Gt, Amp} + {Quot} == {Lt, Gt, Amp, Quot};
    PassStep(s, {Lt, Gt, Amp, Quot}, Apos);
    assert {Lt, Gt, Amp, Quot} + {Apos} == {Lt, Gt, Amp, Quot, Apos};
    EscapeAllRaw(s, {Lt, Gt, Amp, Quot, Apos});
    NumericPlain(s, HexPrefix, 16);
    NumericPlain(s, DecPrefix, 10);
  }

  /** A numeric pass leaves text alone that has no `;` or no `&`. */
  lemma NumericPlain(s: Str, prefix: Str, radix: nat)
    requires prefix != [] && prefix[0] == Amp
    requires Semicolon !in s || Amp !in s
    ensures ReplaceNumericRefs(s, prefix, radix) == s
  {
    if Semicolon !in s {
      NumericNoSemicolon(s, prefix, radix);
    } else {
      NumericSkip(s, [], prefix, radix);
      assert s + [] == s;
    }
  }

  /** PassStep with the entity and the grown set of raw characters named. */
  lemma PassUndo(s: Str, raw: set<CodeUnit>, c: CodeUnit, ref: Str, raw': set<CodeUnit>)
    requires (Semicolon !in s || Amp !in s) && IsSpecial(c) && c !in raw
    requires ref == RefOf(c) && raw' == raw + {c}
    ensures ReplaceAll(EscapeExcept(s, raw), ref, [c]) == EscapeExcept(s, raw')
  {
    PassStep(s, raw, c);
  }

  /** The lt, gt, amp and quot passes, in that order, undo the escaping of
      every special character but `'` in text without a literal `;` or
      without a literal `&`. */
  lemma FourPassesUndoEscape(s: Str)
    requires Semicolon !in s || Amp !in s
    ensures var e1 := ReplaceAll(EscapeExcept(s, {Apos}), LtRef, [Lt]);
            var e2 := ReplaceAll(e1, GtRef, [Gt]);
            var e3 := ReplaceAll(e2, AmpRef, [Amp]);
            ReplaceAll(e3, QuotRef, [Quot]) == s
  {
    var r0, r1, r2, r3, r4 := {Apos}, {Apos, Lt}, {Apos, Lt, Gt}, {Apos, Lt, Gt, Amp}, {Apos, Lt, Gt, Amp, Quot};
    assert r0 + {Lt} == r1 && r1 + {Gt} == r2 && r2 + {Amp} == r3 && r3 + {Quot} == r4;
    assert Lt !in r0 && Gt !in r1 && Amp !in r2 && Quot !in r3;
    assert RefOf(Lt) == LtRef && RefOf(Gt) == GtRef && RefOf(Amp) == AmpRef && RefOf(Quot) == QuotRef;
    PassUndo(s, r0, Lt, LtRef, r1);
    PassUndo(s, r1, Gt, GtRef, r2);
    PassUndo(s, r2, Amp, AmpRef, r3);
    PassUndo(s, r3, Quot, QuotRef, r4);
    EscapeAllRaw(s, r4);
  }

  /** Text without special characters is not changed by escaping. */
  lemma {:induction false} EscapePlain(s: Str, raw: set<CodeUnit>)
    requires forall k :: 0 <= k < |s| ==> !IsSpecial(s[k])
    ensures EscapeExcept(s, raw) == s
  {
    if s != [] {
      EscapePlain(s[1..], raw);
      assert s == [s[0]] + s[1..];
    }
  }

  /** With a literal `;` the round trip can fail: `&quot;` is escaped to
      `&amp;quot;`, the amp pass rebuilds `&quot;` and the later quot pass
      decodes it once more. */
  lemma EscapeRoundTripFailsWithSemicolon(s: Str)
    requires s == QuotRef
    ensures Decode(Escape(s)) == [Quot] != s
  {
    var t := QuotRef[1..];
    assert s == [Amp] + t;
    EscapePlain(t, {});
    assert Escape(s) == AmpRef + t;
    FirstPassesOnAmpRef(t);
    assert [Amp] + t == QuotRef + [];
    ReplaceAllHit([], QuotRef, [Quot]);
    ShortIsUnchanged([Quot]);
    assert NamedPasses(AmpRef + t) == [Quot];
  }

  /** Escaping leaves no raw `<` behind. */
  lemma {:induction false} EscapeRemovesLt(s: Str, raw: set<CodeUnit>)
    requires Lt !in raw
    ensures Lt !in EscapeExcept(s, raw)
  {
    if s != [] {
      EscapeRemovesLt(s[1..], raw);
      assert Lt !in Piece(s[0], raw);
    }
  }

  /** Escaping works character by character, so it distributes over
      concatenation. */
  lemma {:induction false} EscapeConcat(a: Str, b: Str, raw: set<CodeUnit>)
    ensures EscapeExcept(a + b, raw) == EscapeExcept(a, raw) + EscapeExcept(b, raw)
  {
    if a == [] {
      assert a + b == b;
    } else {
      assert (a + b)[0] == a[0] && (a + b)[1..] == a[1..] + b;
      EscapeConcat(a[1..], b, raw);
    }
  }

  /** A single character is escaped to its piece. */
  lemma EscapeOne(c: CodeUnit, raw: set<CodeUnit>)
    ensures EscapeExcept([c], raw) == Piece(c, raw)
  {
    assert [c][1..] == [];
  }
}
