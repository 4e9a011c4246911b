/** The older single-file fetcher (index.js): its own entity decoder, which
    knows fewer entities, and its own copy of the three extraction stages,
    which fails with an error where extractRssContent returns null. */
module LegacyFetcher {
  import opened Text
  import opened EntityDecoder
  import opened RssExtractor

  /** The outcome of fetchRSSFeed once the page is loaded: the feed text, or
      the error it throws. */
  datatype Result = Ok(feed: Str) | Failed(message: string)

  const NoRssContent: string := "No RSS content found"

  /** decodeHtmlEntities in index.js: lt, gt, amp, quot, then decimal
      references. There is no apos pass and no hexadecimal pass. */
  function DecodeLegacy(s: Str): Str {
    var s1 := ReplaceAll(s, LtRef, [Lt]);
    var s2 := ReplaceAll(s1, GtRef, [Gt]);
    var s3 := ReplaceAll(s2, AmpRef, [Amp]);
    var s4 := ReplaceAll(s3, QuotRef, [Quot]);
    ReplaceNumericRefs(s4, DecPrefix, 10)
  }

  /** The extraction stages of fetchRSSFeed: the <pre> text when it holds
      `<rss`, then the page's first `<rss ... </rss>` behind an XML
      declaration, then the decoded <pre> text, else the error. */
  function ExtractLegacy(pre: Option<Str>, content: Str): Result {
    if pre.Some? && pre.value != [] && Includes(pre.value, OpenTag) then Ok(Trim(pre.value))
    else
      match RssMatch(content)
      case Some(m) => Ok(XmlDeclaration + MatchedText(content, m))
      case None =>
        if pre.Some? && pre.value != [] then
          var decoded := DecodeLegacy(pre.value);
          if Includes(decoded, OpenTag) then Ok(Trim(decoded)) else Failed(NoRssContent)
        else Failed(NoRssContent)
  }

  // ---------------------------------------------------------------------
  // Properties
  // ---------------------------------------------------------------------

  /** Text without `&` passes through the older decoder unchanged. */
  lemma DecodeLegacyNoAmp(s: Str)
    requires Amp !in s
    ensures DecodeLegacy(s) == s
  {
    PassesKeepNoAmp(s);
  }

  /** The older decoder has no apos pass: `&apos;` stays as it is. */
  lemma DecodeLegacyKeepsApos()
    ensures DecodeLegacy(AposRef) == AposRef
  {
    var s := AposRef;
    MismatchAt(s, LtRef, 1);
    PassMissAtAmp(s, LtRef, [Lt]);
    MismatchAt(s, GtRef, 1);
    PassMissAtAmp(s, GtRef, [Gt]);
    MismatchAt(s, AmpRef, 2);
    PassMissAtAmp(s, AmpRef, [Amp]);
    MismatchAt(s, QuotRef, 1);
    PassMissAtAmp(s, QuotRef, [Quot]);
    MismatchAt(s, DecPrefix, 1);
    NumericMissAtAmp(s, DecPrefix, 10);
  }

  /** An apos entity between two letters is kept: `x&apos;y` is unchanged,
      where the newer decoder yields `x'y`. */
  lemma DecodeLegacyAposExample(s: Str)
    requires s == [0x78] + AposRef + [0x79]
    ensures DecodeLegacy(s) == s
    ensures Decode(s) == [0x78, Apos, 0x79]
  {
    var t := AposRef + [0x79];
    assert s == [0x78] + t;
    LegacyPassesSkipApos(AposRef, [0x79]);
    PassesSkipLetter(0x78, t);
    DecodeLetterAposLetter(s);
  }

  /** The older decoder's passes leave a leading non-`&` unit alone. */
  lemma PassesSkipLetter(c: CodeUnit, t: Str)
    requires c != Amp
    ensures DecodeLegacy([c] + t) == [c] + DecodeLegacy(t)
  {
    ReplaceAllSkip([c], t, LtRef, [Lt]);
    var t1 := ReplaceAll(t, LtRef, [Lt]);
    ReplaceAllSkip([c], t1, GtRef, [Gt]);
    var t2 := ReplaceAll(t1, GtRef, [Gt]);
    ReplaceAllSkip([c], t2, AmpRef, [Amp]);
    var t3 := ReplaceAll(t2, AmpRef, [Amp]);
    ReplaceAllSkip([c], t3, QuotRef, [Quot]);
    var t4 := ReplaceAll(t3, QuotRef, [Quot]);
    NumericSkip([c], t4, DecPrefix, 10);
  }

  /** `&apos;` followed by a letter is kept by the older decoder. */
  lemma LegacyPassesSkipApos(a: Str, t: Str)
    requires a == AposRef && t == [0x79]
    ensures DecodeLegacy(a + t) == a + t
  {
    var s := a + t;
    assert s[1..] == a[1..] + t;
    assert Amp !in s[1..];
    MismatchAt(s, LtRef, 1);
    PassMissAtAmp(s, LtRef, [Lt]);
    MismatchAt(s, GtRef, 1);
    PassMissAtAmp(s, GtRef, [Gt]);
    MismatchAt(s, AmpRef, 2);
    PassMissAtAmp(s, AmpRef, [Amp]);
    MismatchAt(s, QuotRef, 1);
    PassMissAtAmp(s, QuotRef, [Quot]);
    MismatchAt(s, DecPrefix, 1);
    NumericMissAtAmp(s, DecPrefix, 10);
  }

  /** The newer decoder turns `x&apos;y` into `x'y`. */
  lemma DecodeLetterAposLetter(s: Str)
    requires s == [0x78] + AposRef + [0x79]
    ensures Decode(s) == [0x78, Apos, 0x79]
  {
    var t := AposRef + [0x79];
    assert s == [0x78] + t;
    NamedPassesSkip(0x78, t);
    NamedPassesAposThen([0x79]);
    assert [0x78] + ([Apos] + [0x79]) == [0x78, Apos, 0x79];
    PassesKeepNoAmp([0x78, Apos, 0x79]);
  }

  /** The newer decoder's named passes leave a leading non-`&` alone. */
  lemma NamedPassesSkip(c: CodeUnit, t: Str)
    requires c != Amp
    ensures NamedPasses([c] + t) == [c] + NamedPasses(t)
  {
    ReplaceAllSkip([c], t, LtRef, [Lt]);
    var t1 := ReplaceAll(t, LtRef, [Lt]);
    ReplaceAllSkip([c], t1, GtRef, [Gt]);
    var t2 := ReplaceAll(t1, GtRef, [Gt]);
    ReplaceAllSkip([c], t2, AmpRef, [Amp]);
    var t3 := ReplaceAll(t2, AmpRef, [Amp]);
    ReplaceAllSkip([c], t3, QuotRef, [Quot]);
    var t4 := ReplaceAll(t3, QuotRef, [Quot]);
    ReplaceAllSkip([c], t4, AposRef, [Apos]);
  }

  /** The newer decoder's named passes turn `&apos;` followed by text
      without `&` into `'` and that text. */
  lemma NamedPassesAposThen(t: Str)
    requires Amp !in t
    ensures NamedPasses(AposRef + t) == [Apos] + t
  {
    var s := AposRef + t;
    assert s[1..] == AposRef[1..] + t;
    assert Amp !in s[1..];
    MismatchAt(s, LtRef, 1);
    PassMissAtAmp(s, LtRef, [Lt]);
    MismatchAt(s, GtRef, 1);
    PassMissAtAmp(s, GtRef, [Gt]);
    MismatchAt(s, AmpRef, 2);
    PassMissAtAmp(s, AmpRef, [Amp]);
    MismatchAt(s, QuotRef, 1);
    PassMissAtAmp(s, QuotRef, [Quot]);
    ReplaceAllHit(t, AposRef, [Apos]);
    PassesKeepNoAmp(t);
  }

  /** The older decoder leaves a string alone that starts with `&#x` and has
      no other `&`: `x` is not a decimal digit. */
  lemma LegacyKeepsHexShape(s: Str)
    requires |s| >= 3 && s[0] == Amp && s[1] == 0x23 && s[2] == 0x78 && Amp !in s[1..]
    ensures DecodeLegacy(s) == s
  {
    MismatchAt(s, LtRef, 1);
    PassMissAtAmp(s, LtRef, [Lt]);
    MismatchAt(s, GtRef, 1);
    PassMissAtAmp(s, GtRef, [Gt]);
    MismatchAt(s, AmpRef, 1);
    PassMissAtAmp(s, AmpRef, [Amp]);
    MismatchAt(s, QuotRef, 1);
    PassMissAtAmp(s, QuotRef, [Quot]);
    assert DigitRun(s, 2, 10) == 0;
    assert RefDigitCount(s, DecPrefix, 10) == 0;
    NumericSkip(s[1..], [], DecPrefix, 10);
    assert s[1..] + [] == s[1..];
    assert s == [s[0]] + s[1..];
  }

  /** The older decoder has no hexadecimal pass: `&#x3C;` stays as it is,
      where the newer decoder yields `<`. */
  lemma DecodeLegacyKeepsHexRef(s: Str)
    requires s == HexPrefix + [0x33, 0x43, Semicolon]
    ensures DecodeLegacy(s) == s
    ensures Decode(s) == [Lt]
  {
    var d: Str := [0x33, 0x43];
    assert s == HexPrefix + d + [Semicolon];
    HexExampleValue(d);
    DecodeHexRef(s, d);
    HexRefShape(s, d);
    LegacyKeepsHexShape(s);
  }

  /** The hexadecimal digits `3C` denote 60, the code of `<`. */
  lemma HexExampleValue(d: Str)
    requires d == [0x33, 0x43]
    ensures forall k :: 0 <= k < |d| ==> IsDigit(d[k], 16)
    ensures DigitsValue(d, 16) % 0x1_0000 == Lt
  {
    assert d[..1] == [0x33];
    assert DigitsValue(d[..1], 16) == 3;
  }

  /** `s` with `<`, `>`, `&` and `"` replaced by their entities and `'` left
      as it is: the escaping the older decoder knows. */
  function EscapeKnown(s: Str): Str {
    EscapeExcept(s, {Apos})
  }

  /** The older decoder undoes the escaping of `<`, `>`, `&` and `"` (not of
      `'`, which it does not know) for text without a literal `;` or without
      a literal `&`. */
  lemma DecodeLegacyEscapeRoundTrip(s: Str)
    requires Semicolon !in s || Amp !in s
    ensures DecodeLegacy(EscapeKnown(s)) == s
  {
    FourPassesUndoEscape(s);
    NumericPlain(s, DecPrefix, 10);
  }

  /** Stage 1 of the older fetcher: a <pre> text holding `<rss` is returned
      trimmed, whatever the page holds, and still holds `<rss`. */
  lemma LegacyStage1(pre: Str, content: Str)
    requires Includes(pre, OpenTag)
    ensures ExtractLegacy(Some(pre), content) == Ok(Trim(pre))
    ensures Includes(Trim(pre), OpenTag)
  {
    assert pre != [] by {
      var k :| OccursAt(pre, k, OpenTag);
    }
    TrimKeepsOpen(pre);
  }

  /** Stage 2 of the older fetcher: otherwise, when the page matches, the
      result is the declaration followed by the page's first `<rss` through
      its last `</rss>`. */
  lemma LegacyStage2(pre: Option<Str>, content: Str)
    requires !(pre.Some? && Includes(pre.value, OpenTag))
    requires exists i, j :: MatchSpan(content, i, j)
    ensures RssMatch(content).Some?
    ensures var m := RssMatch(content).value;
            ExtractLegacy(pre, content) == Ok(XmlDeclaration + content[m.open..m.close + |CloseTag|])
  {
    PageHasMatch(content);
  }

  /** Stage 3 of the older fetcher: otherwise, when the text decoded by the
      older decoder holds `<rss`, it is returned trimmed. */
  lemma LegacyStage3(pre: Str, content: Str)
    requires !Includes(pre, OpenTag) && (forall i, j :: !MatchSpan(content, i, j))
    requires Includes(DecodeLegacy(pre), OpenTag)
    ensures ExtractLegacy(Some(pre), content) == Ok(Trim(DecodeLegacy(pre)))
  {
    if pre == [] {
      DecodeLegacyNoAmp(pre);
    }
  }

  /** A feed shown in <pre> with `<`, `>`, `&` and `"` escaped and `'` left
      as it is is recovered by the older fetcher, under the same conditions
      as by extractRssContent. */
  lemma LegacyEscapedFeedRecovered(x: Str, content: Str)
    requires (Semicolon !in x || Amp !in x) && Includes(x, OpenTag)
    requires x != [] ==> !IsWhitespace(x[0]) && !IsWhitespace(x[|x| - 1])
    requires forall i, j :: !MatchSpan(content, i, j)
    ensures ExtractLegacy(Some(EscapeKnown(x)), content) == Ok(x)
  {
    var e := EscapeKnown(x);
    EscapeRemovesLt(x, {Apos});
    NoLtNoOpenTag(e);
    DecodeLegacyEscapeRoundTrip(x);
    TrimNoWhitespace(x);
    LegacyStage3(e, content);
  }

  /** Where the two decoders agree on the <pre> text, the older fetcher
      returns what extractRssContent returns, and fails with "No RSS content
      found" exactly where extractRssContent returns null. */
  lemma LegacyAgreesWithExtract(pre: Option<Str>, content: Str)
    requires pre.Some? ==> DecodeLegacy(pre.value) == Decode(pre.value)
    ensures ExtractLegacy(pre, content)
            == match Extract(pre, content)
               case Some(feed) => Ok(feed)
               case None => Failed(NoRssContent)
  {
    if pre.Some? && pre.value == [] {
      assert !Includes(pre.value, OpenTag);
    }
  }

  /** In particular the two agree on <pre> text without `&`. */
  lemma LegacyAgreesWithoutAmp(pre: Str, content: Str)
    requires Amp !in pre
    ensures ExtractLegacy(Some(pre), content)
            == match Extract(Some(pre), content)
               case Some(feed) => Ok(feed)
               case None => Failed(NoRssContent)
  {
    DecodeLegacyNoAmp(pre);
    DecodeNoAmp(pre);
    LegacyAgreesWithExtract(Some(pre), content);
  }

  /** The older fetcher fails only when no stage applies. */
  lemma LegacyFailsIff(pre: Option<Str>, content: Str)
    ensures ExtractLegacy(pre, content).Failed? <==>
      (pre.None? || (!Includes(pre.value, OpenTag) && !Includes(DecodeLegacy(pre.value), OpenTag)))
      && (forall i, j :: !MatchSpan(content, i, j))
  {
    if pre.Some? && pre.value == [] {
      DecodeLegacyNoAmp([]);
      assert !Includes(pre.value, OpenTag);
    }
    if RssMatch(content).Some? {
      var m := RssMatch(content).value;
      assert MatchSpan(content, m.open, m.close);
    }
  }
}
