/** extractRssContent: find the RSS document in what the browser showed, in
    three stages. The text of the page's <pre> element is taken as it is
    when it already holds `<rss`; otherwise the first `<rss ... </rss>` of
    the page's HTML is taken and given an XML declaration; otherwise the
    <pre> text is entity-decoded and taken when that holds `<rss`. */
module RssExtractor {
  import opened Text
  import opened EntityDecoder

  /** `<rss` */
  const OpenTag: Str := [0x3C, 0x72, 0x73, 0x73]
  /** `</rss>` */
  const CloseTag: Str := [0x3C, 0x2F, 0x72, 0x73, 0x73, 0x3E]

  /** The declaration put in front of a document cut out of the page:
      `<?xml version="1.0" encoding="UTF-8"?>` and a line feed. */
  const XmlDeclaration: Str := [
    0x3C, 0x3F, 0x78, 0x6D, 0x6C, 0x20, 0x76, 0x65, 0x72, 0x73, 0x69,
    0x6F, 0x6E, 0x3D, 0x22, 0x31, 0x2E, 0x30, 0x22, 0x20, 0x65, 0x6E,
    0x63, 0x6F, 0x64, 0x69, 0x6E, 0x67, 0x3D, 0x22, 0x55, 0x54, 0x46,
    0x2D, 0x38, 0x22, 0x3F, 0x3E, 0x0A]

  // ---------------------------------------------------------------------
  // The regular expression /<rss[\s\S]*<\/rss>/i
  // ---------------------------------------------------------------------

  /** The case folding of a case-insensitive, non-Unicode regular expression,
      as far as the letters of the pattern need it: only the ASCII letters
      fold onto `r` and `s`, since a non-ASCII character never canonicalises
      to an ASCII one. */
  function AsciiLower(c: CodeUnit): CodeUnit {
    if 0x41 <= c <= 0x5A then c + 0x20 else c
  }

  /** `pat` occurs at `i` in `s`, ignoring ASCII case. */
  predicate MatchesAt(s: Str, i: int, pat: Str) {
    0 <= i && i + |pat| <= |s|
    && forall k :: 0 <= k < |pat| ==> AsciiLower(s[i + k]) == AsciiLower(pat[k])
  }

  predicate OpenAt(s: Str, i: int) {
    MatchesAt(s, i, OpenTag)
  }

  predicate CloseAt(s: Str, j: int) {
    MatchesAt(s, j, CloseTag)
  }

  /** The text s[i..j + 6] matches the regular expression: `<rss` at i, any
      text, and `</rss>` at j, after the `<rss`. */
  predicate MatchSpan(s: Str, i: int, j: int) {
    OpenAt(s, i) && CloseAt(s, j) && i + |OpenTag| <= j
  }

  /** The positions of a match: its `<rss` and its final `</rss>`. */
  datatype Span = Span(open: nat, close: nat)

  /** The first `<rss`, in any case, at or after `from`. */
  function FirstOpen(s: Str, from: nat): (r: Option<nat>)
    ensures r.Some? ==> from <= r.value && OpenAt(s, r.value)
    ensures r.Some? ==> forall i :: from <= i < r.value ==> !OpenAt(s, i)
    ensures r.None? ==> forall i :: from <= i ==> !OpenAt(s, i)
    decreases |s| - from
  {
    if from + |OpenTag| > |s| then None
    else if OpenAt(s, from) then Some(from)
    else FirstOpen(s, from + 1)
  }

  /** The last `</rss>`, in any case, at or after `from` and before `below`. */
  function LastClose(s: Str, from: nat, below: nat): (r: Option<nat>)
    ensures r.Some? ==> from <= r.value < below && CloseAt(s, r.value)
    ensures r.Some? ==> forall j :: r.value < j < below ==> !CloseAt(s, j)
    ensures r.None? ==> forall j :: from <= j < below ==> !CloseAt(s, j)
    decreases below
  {
    if below <= from then None
    else if CloseAt(s, below - 1) then Some(below - 1)
    else LastClose(s, from, below - 1)
  }

  /** String.prototype.match with /<rss[\s\S]*<\/rss>/i: the leftmost match,
      made as long as possible by the greedy `[\s\S]*`. There is a match just
      when some `<rss` has a `</rss>` after it; the match starts at the first
      `<rss` of the text and ends with its last `</rss>`. */
  function RssMatch(s: Str): (m: Option<Span>)
    ensures m.Some? ==> MatchSpan(s, m.value.open, m.value.close)
    ensures m.Some? ==> forall i :: OpenAt(s, i) ==> m.value.open <= i
    ensures m.Some? ==> forall j :: CloseAt(s, j) ==> j <= m.value.close
    ensures m.None? ==> forall i, j :: !MatchSpan(s, i, j)
  {
    match FirstOpen(s, 0)
    case None => None
    case Some(i) =>
      match LastClose(s, i + |OpenTag|, |s|)
      case None => None
      case Some(j) =>
        assert forall j' :: CloseAt(s, j') ==> j' < |s|;
        Some(Span(i, j))
  }

  /** The matched text. */
  function MatchedText(s: Str, m: Span): (t: Str)
    requires MatchSpan(s, m.open, m.close)
    ensures OpenAt(t, 0) && CloseAt(t, |t| - |CloseTag|)
  {
    var t := s[m.open..m.close + |CloseTag|];
    assert forall k :: 0 <= k < |t| ==> t[k] == s[m.open + k];
    t
  }

  // ---------------------------------------------------------------------
  // extractRssContent
  // ---------------------------------------------------------------------

  /** extractRssContent(preContent, pageContent): `pre` is the text of the
      <pre> element, None when there is none (null); the result None is
      null. */
  function Extract(pre: Option<Str>, page: Str): Option<Str> {
    if pre.Some? && Includes(pre.value, OpenTag) then Some(Trim(pre.value))
    else
      match RssMatch(page)
      case Some(m) => Some(XmlDeclaration + MatchedText(page, m))
      case None =>
        if pre.Some? && pre.value != [] then
          var decoded := Decode(pre.value);
          if Includes(decoded, OpenTag) then Some(Trim(decoded)) else None
        else None
  }

  /** `<rss` occurs in `s`, ignoring ASCII case. */
  predicate HasOpen(s: Str) {
    exists i :: 0 <= i < |s| && OpenAt(s, i)
  }

  /** An exact occurrence of `<rss` is one ignoring case. */
  lemma ExactOpenIsOpen(s: Str)
    requires Includes(s, OpenTag)
    ensures HasOpen(s)
  {
    var i :| OccursAt(s, i, OpenTag);
    var w := s[i..i + |OpenTag|];
    assert forall k :: 0 <= k < |w| ==> w[k] == s[i + k];
    assert OpenAt(s, i);
  }

  /** `<rss` neither starts nor ends with whitespace, so trimming keeps it. */
  lemma TrimKeepsOpen(s: Str)
    requires Includes(s, OpenTag)
    ensures Includes(Trim(s), OpenTag)
  {
    var i :| OccursAt(s, i, OpenTag);
    TrimKeepsOccurrence(s, OpenTag, i);
  }

  /** Stage 1: a <pre> text holding `<rss` is returned trimmed, whatever the
      page holds, and still holds `<rss`. */
  lemma ExtractPreWithRss(pre: Str, page: Str)
    requires Includes(pre, OpenTag)
    ensures Extract(Some(pre), page) == Some(Trim(pre))
    ensures Includes(Trim(pre), OpenTag)
  {
    TrimKeepsOpen(pre);
  }

  /** Stage 2: otherwise, when the page's HTML holds a match, the result is
      the declaration followed by the match, untrimmed; it starts with `<rss`
      after the declaration and ends with `</rss>`. */
  lemma ExtractFromPage(pre: Option<Str>, page: Str)
    requires !(pre.Some? && Includes(pre.value, OpenTag))
    requires exists i, j :: MatchSpan(page, i, j)
    ensures RssMatch(page).Some?
    ensures var m := RssMatch(page).value;
            var r := XmlDeclaration + page[m.open..m.close + |CloseTag|];
            Extract(pre, page) == Some(r) && OpenAt(r, |XmlDeclaration|) && CloseAt(r, |r| - |CloseTag|)
  {
    PageHasMatch(page);
    PageStage(pre, page);
    PageTags(page);
  }

  /** The declaration followed by the match starts with `<rss` after the
      declaration and ends with `</rss>`. */
  lemma PageTags(page: Str)
    requires RssMatch(page).Some?
    ensures var m := RssMatch(page).value;
            var r := XmlDeclaration + page[m.open..m.close + |CloseTag|];
            OpenAt(r, |XmlDeclaration|) && CloseAt(r, |r| - |CloseTag|)
  {
    var m := RssMatch(page).value;
    PrefixKeepsTags(XmlDeclaration, MatchedText(page, m));
  }

  /** A page with a match makes the regular expression succeed. */
  lemma PageHasMatch(page: Str)
    requires exists i, j :: MatchSpan(page, i, j)
    ensures RssMatch(page).Some?
  {
  }

  /** When the <pre> text holds no `<rss` and the page matches, the result
      is the declaration followed by the matched text. */
  lemma PageStage(pre: Option<Str>, page: Str)
    requires !(pre.Some? && Includes(pre.value, OpenTag)) && RssMatch(page).Some?
    ensures var m := RssMatch(page).value;
            Extract(pre, page) == Some(XmlDeclaration + MatchedText(page, m))
            && MatchedText(page, m) == page[m.open..m.close + |CloseTag|]
  {
  }

  /** Text put in front of a match does not disturb its tags. */
  lemma PrefixKeepsTags(p: Str, t: Str)
    requires OpenAt(t, 0) && CloseAt(t, |t| - |CloseTag|)
    ensures OpenAt(p + t, |p|) && CloseAt(p + t, |p + t| - |CloseTag|)
  {
    var r := p + t;
    assert forall k :: 0 <= k < |t| ==> r[|p| + k] == t[k];
  }

  /** Stage 2 goes before stage 3: when the page matches, an escaped <pre>
      text is not looked at. */
  lemma PageMatchBeatsDecoding(pre: Str, page: Str)
    requires !Includes(pre, OpenTag) && RssMatch(page).Some?
    ensures Extract(Some(pre), page) == Extract(None, page)
  {
  }

  lemma DecodeEmpty()
    ensures Decode([]) == []
  {
    DecodeNoAmp([]);
  }

  /** Stage 3: otherwise, when the entity-decoded <pre> text holds `<rss` it
      is returned trimmed. */
  lemma ExtractDecodedPre(pre: Str, page: Str)
    requires !Includes(pre, OpenTag) && (forall i, j :: !MatchSpan(page, i, j))
    requires Includes(Decode(pre), OpenTag)
    ensures Extract(Some(pre), page) == Some(Trim(Decode(pre)))
    ensures Includes(Trim(Decode(pre)), OpenTag)
  {
    DecodeEmpty();
    assert pre != [];
    TrimKeepsOpen(Decode(pre));
  }

  /** The result is null exactly when no stage applies: the <pre> text holds
      no `<rss` even after decoding, and the page has no match. */
  lemma ExtractNullIff(pre: Option<Str>, page: Str)
    ensures Extract(pre, page).None? <==>
      (pre.None? || (!Includes(pre.value, OpenTag) && !Includes(Decode(pre.value), OpenTag)))
      && (forall i, j :: !MatchSpan(page, i, j))
  {
    DecodeEmpty();
    if pre.Some? && !Includes(pre.value, OpenTag) && pre.value == [] {
      assert !Includes(Decode(pre.value), OpenTag);
    }
    if RssMatch(page).Some? {
      var m := RssMatch(page).value;
      assert MatchSpan(page, m.open, m.close);
    }
  }

  /** Whatever stage produced it, a result holds `<rss` in some case. */
  lemma ExtractResultHasRss(pre: Option<Str>, page: Str)
    requires Extract(pre, page).Some?
    ensures HasOpen(Extract(pre, page).value)
  {
    var r := Extract(pre, page).value;
    if pre.Some? && Includes(pre.value, OpenTag) {
      TrimKeepsOpen(pre.value);
      ExactOpenIsOpen(r);
    } else if RssMatch(page).Some? {
      var m := RssMatch(page).value;
      assert MatchSpan(page, m.open, m.close);
      ExtractFromPage(pre, page);
      assert OpenAt(r, |XmlDeclaration|);
    } else {
      TrimKeepsOpen(Decode(pre.value));
      ExactOpenIsOpen(r);
    }
  }

  /** A page without `<` has no match. */
  lemma NoLtNoMatch(page: Str)
    requires Lt !in page
    ensures forall i, j :: !MatchSpan(page, i, j)
  {
    forall i | 0 <= i < |page|
      ensures !OpenAt(page, i)
    {
      assert AsciiLower(page[i]) != AsciiLower(OpenTag[0]);
    }
  }

  /** Text without `<` does not hold `<rss`. */
  lemma NoLtNoOpenTag(e: Str)
    requires Lt !in e
    ensures !Includes(e, OpenTag)
  {
    forall k | 0 <= k && k + |OpenTag| <= |e|
      ensures !OccursAt(e, k, OpenTag)
    {
      assert e[k..k + |OpenTag|][0] == e[k];
    }
  }

  /** A feed that the browser shows as escaped text in the <pre> element is
      recovered exactly, provided it has no literal `;` or no literal `&`, no
      surrounding whitespace, and the page's HTML holds no raw `<rss`. */
  lemma EscapedFeedRecovered(x: Str, page: Str)
    requires (Semicolon !in x || Amp !in x) && Includes(x, OpenTag)
    requires x != [] ==> !IsWhitespace(x[0]) && !IsWhitespace(x[|x| - 1])
    requires forall i, j :: !MatchSpan(page, i, j)
    ensures Extract(Some(Escape(x)), page) == Some(x)
  {
    var e := Escape(x);
    EscapeRemovesLt(x, {});
    NoLtNoOpenTag(e);
    DecodeEscapeRoundTrip(x);
    TrimNoWhitespace(x);
    ExtractDecodedPre(e, page);
  }

  /** `<` + w + `>`, for text w without special characters, is escaped to
      `&lt;` + w + `&gt;`. */
  lemma EscapeTag(w: Str, a: Str)
    requires forall k :: 0 <= k < |w| ==> !IsSpecial(w[k])
    requires a == [Lt] + w + [Gt]
    ensures Escape(a) == LtRef + w + GtRef
  {
    EscapeConcat([Lt] + w, [Gt], {});
    EscapeConcat([Lt], w, {});
    EscapePlain(w, {});
    EscapeOne(Lt, {});
    EscapeOne(Gt, {});
  }

  /** Two tags around one plain character are escaped tag by tag. */
  lemma EscapeTwoTags(w1: Str, z: CodeUnit, w2: Str)
    requires forall k :: 0 <= k < |w1| ==> !IsSpecial(w1[k])
    requires forall k :: 0 <= k < |w2| ==> !IsSpecial(w2[k])
    requires !IsSpecial(z)
    ensures Escape([Lt] + w1 + [Gt] + [z] + [Lt] + w2 + [Gt])
            == LtRef + w1 + GtRef + [z] + LtRef + w2 + GtRef
  {
    var a := [Lt] + w1 + [Gt];
    var b := [Lt] + w2 + [Gt];
    assert [Lt] + w1 + [Gt] + [z] + [Lt] + w2 + [Gt] == a + [z] + b;
    EscapeConcat(a + [z], b, {});
    EscapeConcat(a, [z], {});
    EscapeOne(z, {});
    EscapeTag(w1, a);
    EscapeTag(w2, b);
  }

  /** `<rss>Z</rss>` is escaped to `&lt;rss&gt;Z&lt;/rss&gt;`. */
  lemma EscapeExample(x: Str, e: Str)
    requires x == [0x3C, 0x72, 0x73, 0x73, 0x3E, 0x5A, 0x3C, 0x2F, 0x72, 0x73, 0x73, 0x3E]
    requires e == [0x26, 0x6C, 0x74, 0x3B, 0x72, 0x73, 0x73, 0x26, 0x67, 0x74, 0x3B, 0x5A,
                   0x26, 0x6C, 0x74, 0x3B, 0x2F, 0x72, 0x73, 0x73, 0x26, 0x67, 0x74, 0x3B]
    ensures Escape(x) == e
  {
    var w1: Str := [0x72, 0x73, 0x73];
    var w2: Str := [0x2F, 0x72, 0x73, 0x73];
    FeedParts(x, w1, w2);
    EscapedParts(e, w1, w2);
    EscapeTwoTags(w1, 0x5A, w2);
  }

  /** The example feed, cut into tags and text. */
  lemma FeedParts(x: Str, w1: Str, w2: Str)
    requires x == [0x3C, 0x72, 0x73, 0x73, 0x3E, 0x5A, 0x3C, 0x2F, 0x72, 0x73, 0x73, 0x3E]
    requires w1 == [0x72, 0x73, 0x73] && w2 == [0x2F, 0x72, 0x73, 0x73]
    ensures x == [Lt] + w1 + [Gt] + [0x5A] + [Lt] + w2 + [Gt]
  {
    var t1 := [Lt] + w1 + [Gt];
    var t2 := [Lt] + w2 + [Gt];
    assert t1 == [0x3C, 0x72, 0x73, 0x73, 0x3E];
    assert t2 == [0x3C, 0x2F, 0x72, 0x73, 0x73, 0x3E];
    assert x == t1 + [0x5A] + t2;
  }

  /** The escaped example feed, cut into entities and text. */
  lemma EscapedParts(e: Str, w1: Str, w2: Str)
    requires e == [0x26, 0x6C, 0x74, 0x3B, 0x72, 0x73, 0x73, 0x26, 0x67, 0x74, 0x3B, 0x5A,
                   0x26, 0x6C, 0x74, 0x3B, 0x2F, 0x72, 0x73, 0x73, 0x26, 0x67, 0x74, 0x3B]
    requires w1 == [0x72, 0x73, 0x73] && w2 == [0x2F, 0x72, 0x73, 0x73]
    ensures e == LtRef + w1 + GtRef + [0x5A] + LtRef + w2 + GtRef
  {
    var r1 := LtRef + w1 + GtRef;
    var r2 := LtRef + w2 + GtRef;
    assert r1 == [0x26, 0x6C, 0x74, 0x3B, 0x72, 0x73, 0x73, 0x26, 0x67, 0x74, 0x3B];
    assert r2 == [0x26, 0x6C, 0x74, 0x3B, 0x2F, 0x72, 0x73, 0x73, 0x26, 0x67, 0x74, 0x3B];
    assert e == r1 + [0x5A] + r2;
  }

  /** The escaped feed, recovered when the page is not RSS. */
  lemma RecoveredExample(x: Str, page: Str)
    requires x == [0x3C, 0x72, 0x73, 0x73, 0x3E, 0x5A, 0x3C, 0x2F, 0x72, 0x73, 0x73, 0x3E]
    requires page == [0x6E, 0x6F, 0x20, 0x72, 0x73, 0x73, 0x20, 0x68, 0x65, 0x72, 0x65]
    ensures Extract(Some(Escape(x)), page) == Some(x)
  {
    assert OccursAt(x, 0, OpenTag);
    NoLtNoMatch(page);
    EscapedFeedRecovered(x, page);
  }

  /** The <pre> text `&lt;rss&gt;Z&lt;/rss&gt;` on the page `no rss here`
      yields `<rss>Z</rss>` by the third stage. */
  lemma DecodedPreExample(pre: Str, page: Str, x: Str)
    requires pre == [0x26, 0x6C, 0x74, 0x3B, 0x72, 0x73, 0x73, 0x26, 0x67, 0x74, 0x3B, 0x5A,
                     0x26, 0x6C, 0x74, 0x3B, 0x2F, 0x72, 0x73, 0x73, 0x26, 0x67, 0x74, 0x3B]
    requires page == [0x6E, 0x6F, 0x20, 0x72, 0x73, 0x73, 0x20, 0x68, 0x65, 0x72, 0x65]
    requires x == [0x3C, 0x72, 0x73, 0x73, 0x3E, 0x5A, 0x3C, 0x2F, 0x72, 0x73, 0x73, 0x3E]
    ensures Extract(Some(pre), page) == Some(x)
  {
    EscapeExample(x, pre);
    RecoveredExample(x, page);
  }
}
