# CACM feed fetcher: text processing and retry policy

This project is a Dafny model of the pure core of a fetcher that loads the
latest-issue RSS feed of Communications of the ACM in a headless browser.
The model covers:

- **XmlSanitizer**: the sanitiser that deletes the control code units XML 1.0
  forbids (`sanitizeXml`).
- **EntityDecoder**: the entity decoder (`decodeHtmlEntities`) as a chain of
  global left-to-right replacement passes. It also holds a reference escaper
  that the decoder is meant to undo.
- **Backoff**: the backoff delay (`calculateBackoffDelay`) over exact reals,
  with the random draw as a parameter.
- **Retry**: the retry loop (`withRetry`) as a method with a while loop. The
  fallible operation is a script of outcomes, and the calls and sleeps it
  makes are returned as an event log.
- **RssExtractor**: the three-stage payload extractor (`extractRssContent`)
  over the `<pre>` text and the page HTML. This includes the greedy,
  case-insensitive regular expression `/<rss[\s\S]*<\/rss>/i`.
- **LegacyFetcher**: the older single-file fetcher's decoder, and its
  extraction inside `fetchRSSFeed`, which throws instead of returning null.

Strings are sequences of UTF-16 code units (`Text.CodeUnit`, 0 to 65535),
because `String.fromCharCode` can produce lone surrogates.

## Behaviour worth knowing

- **No clamp at zero.** `calculateBackoffDelay` returns
  `Math.round(cappedDelay + jitter)` as it is (src/utils.js:33), so a jitter
  factor above 1 can give a negative delay: with a factor of 2 and a draw of
  0 the first delay is -5000 ms (`Backoff.NegativeDelayWithoutClamp`). With
  the shipped factor of 0.2 every delay lies in [4000, 72000] ms
  (`Backoff.ShippedDelayRange`).
- **The final error is rethrown unchanged.** After the last failed attempt
  `withRetry` throws `lastError` itself (src/utils.js:53), without the attempt
  count or the operation name. `Retry.WithRetry` returns exactly the last
  attempt's error.
- **The amp pass runs before the numeric passes.** `decodeHtmlEntities`
  replaces `&amp;` before it looks for numeric references (src/utils.js:14-20),
  so `&amp;#60;` decodes to `<` (`EntityDecoder.DecodeEscapedNumericRef`).
- **Decoding undoes escaping for text without `&` or without `;`.** For such
  text, decoding the escaped text gives the text back
  (`EntityDecoder.DecodeEscapeRoundTrip`, and
  `LegacyFetcher.DecodeLegacyEscapeRoundTrip` for the older decoder, which
  does not know `&apos;`). It can fail when a literal `&` is followed by
  `quot;`, `apos;` or the body of a numeric reference: the amp pass runs
  before those passes, so `&quot;` escapes to `&amp;quot;`, which decodes to
  `"` (`EntityDecoder.EscapeRoundTripFailsWithSemicolon`).

## Model

| member | source | states |
|---|---|---|
| Text.IsWhitespace | src/rss.js:5 | the code units `trim` removes: JavaScript's WhiteSpace and LineTerminator sets; characterised through `Text.Trim` and `Text.TrimNoWhitespace` |
| Text.Includes | src/rss.js:4 | `includes` holds exactly when the pattern occurs at some index |
| Text.Trim | src/rss.js:5 | `trim` gives a slice of the input; everything cut away is whitespace; the result neither starts nor ends with whitespace |
| Text.TrimKeepsOccurrence | src/rss.js:4-5 | trimming keeps every occurrence of a pattern that neither starts nor ends with whitespace |
| Text.TrimNoWhitespace | src/rss.js:5 | trimming text without surrounding whitespace changes nothing |
| XmlSanitizer.IsForbidden | src/utils.js:7 | the class `[\x00-\x08\x0B\x0C\x0E-\x1F]`; `XmlSanitizer.Sanitize` and `XmlSanitizer.SanitizeKeepsAllowed` state what deleting it means |
| XmlSanitizer.Sanitize | src/utils.js:5-8 | the result holds no code unit in 0x00-0x08, 0x0B, 0x0C or 0x0E-0x1F |
| XmlSanitizer.SanitizeKeepsAllowed | src/utils.js:3-8 | each allowed unit, including tab, LF and CR, occurs as often in the result as in the input; no forbidden unit occurs |
| XmlSanitizer.SanitizeIsSubsequence | src/utils.js:5-8 | the result is the input with some units deleted and the rest in their original order |
| XmlSanitizer.SanitizeIdentity | src/utils.js:5-8 | a string without forbidden units is unchanged |
| XmlSanitizer.SanitizeIdempotent | src/utils.js:5-8 | sanitising twice gives the same as sanitising once |
| XmlSanitizer.SanitizeConcat | src/utils.js:7 | the global replace acts unit by unit: it distributes over concatenation |
| XmlSanitizer.SanitizeExample | src/utils.js:7 | a NUL between allowed units is deleted while tab, LF and CR stay |
| EntityDecoder.ReplaceAll | src/utils.js:12-16 | one `.replace(/literal/g, rep)`: left-to-right, non-overlapping, replaced text not scanned again; characterised by `ReplaceAllSkip`, `ReplaceAllNoMatch` and `PassStep` |
| EntityDecoder.DigitsValue | src/utils.js:17-20 | the value of a digit string in radix 16 or 10, as `parseInt(hex, 16)` and `Number(dec)` give it; used by `NumericHit` and the `Decode*Ref` lemmas |
| EntityDecoder.RefDigitCount | src/utils.js:17-20 | the reading of `&#x([0-9A-Fa-f]+);` and `&#(\d+);` at one position: a positive count only when the prefix is there, followed by that many digits of the radix and then `;`; used by `ReplaceNumericRefs` and the requires of `DecodeUnrecognised` |
| EntityDecoder.ReplaceNumericRefs | src/utils.js:17-20 | one numeric `.replace` with a greedy digit run and a `;`, mapping to `String.fromCharCode` of the value mod 65536; characterised by `NumericHit`, `NumericSkip` and `NumericNoSemicolon` |
| EntityDecoder.Decode | src/utils.js:10-21 | the seven passes of `decodeHtmlEntities` in source order; characterised by the `Decode*` lemmas below; `DecodeEscapeRoundTrip` shows that it undoes escaping |
| EntityDecoder.ReplaceAllSkip | src/utils.js:12-16 | a literal pass copies text without the pattern's first unit unchanged |
| EntityDecoder.ReplaceAllNoMatch | src/utils.js:12-16 | a pass changes nothing when its pattern occurs nowhere |
| EntityDecoder.NumericHit | src/utils.js:17-20 | a reference at the start becomes the code unit of its value mod 65536, and scanning resumes after its `;` |
| EntityDecoder.NumericSkip | src/utils.js:17-20 | a numeric pass copies text without `&` unchanged |
| EntityDecoder.NumericNoSemicolon | src/utils.js:17-20 | without a `;` no numeric reference matches |
| EntityDecoder.NumericPlain | src/utils.js:17-20 | a numeric pass leaves text without `;`, or without `&`, unchanged |
| EntityDecoder.DecodeNoAmp | src/utils.js:10-21 | text without `&` is returned unchanged |
| EntityDecoder.DecodeUnrecognised | src/utils.js:10-21 | text holding no named entity and no well-formed numeric reference passes through unchanged: an unknown `&name;`, a lone `&`, `&#;` or `&#zz;` |
| EntityDecoder.DecodeEmptyNumericRef | src/utils.js:17-20 | `&#;`, a reference without digits, is left as it is |
| EntityDecoder.DecodeLtRef | src/utils.js:12 | `&lt;` decodes to `<` |
| EntityDecoder.DecodeGtRef | src/utils.js:13 | `&gt;` decodes to `>` |
| EntityDecoder.DecodeAmpRef | src/utils.js:14 | `&amp;` decodes to `&` |
| EntityDecoder.DecodeQuotRef | src/utils.js:15 | `&quot;` decodes to `"` |
| EntityDecoder.DecodeAposRef | src/utils.js:16 | `&apos;` decodes to `'` |
| EntityDecoder.DecodeHexRef | src/utils.js:17-19 | `&#x` + hex digits in either case + `;` decodes to the code unit of its value mod 65536 |
| EntityDecoder.DecodeDecRef | src/utils.js:20 | `&#` + decimal digits + `;` decodes to the code unit of its value mod 65536 |
| EntityDecoder.DecodeEscapedNumericRef | src/utils.js:14-20 | the amp pass runs before the numeric passes, so `&amp;#60;` decodes to `<` |
| EntityDecoder.DecodeEscapedNamedRef | src/utils.js:12-14 | the lt pass runs before the amp pass, so `&amp;lt;` decodes only to `&lt;` |
| EntityDecoder.PassStep | src/utils.js:12-16 | on escaped text without a literal `;` or without a literal `&`, the pass for a special character decodes exactly that character's entities |
| EntityDecoder.DecodeEscapeRoundTrip | src/utils.js:10-21 | decoding undoes escaping of the five special characters, for text without a literal `;` or without a literal `&` |
| EntityDecoder.EscapeRoundTripFailsWithSemicolon | src/utils.js:14-15 | the round trip fails for `&quot;`, which comes back as `"` |
| Backoff.Pow | src/utils.js:29 | `Math.pow` with a natural exponent; `PowGrows` and `CappedDelaySchedule` give its values |
| Backoff.BaseDelay | src/utils.js:28-29 | `initialDelayMs * multiplier^(attempt - 1)`; `BaseDelayStep` shows it never decreases |
| Backoff.Jitter | src/utils.js:31-32 | `cappedDelay * jitterFactor * (random * 2 - 1)`; `BackoffDelayBounds` bounds its effect |
| Backoff.BackoffDelay | src/utils.js:27-34 | `calculateBackoffDelay(attempt)` with the draw as a parameter; `BackoffDelayBounds`, `BackoffDelayWithoutJitter`, `ShippedDelayRange` and `NegativeDelayWithoutClamp` characterise it |
| Backoff.Round | src/utils.js:33 | `Math.round` gives the integer n with n <= x + 0.5 < n + 1 |
| Backoff.RoundMonotone | src/utils.js:33 | rounding is monotone |
| Backoff.CappedDelay | src/utils.js:28-30 | the capped delay is at most `maxDelayMs`, at most the base delay, and equal to one of them |
| Backoff.BaseDelayStep | src/utils.js:28-29 | with a multiplier of at least 1 the base delay never decreases from one attempt to the next |
| Backoff.CappedDelayMonotone | src/utils.js:28-30 | the capped delay is non-decreasing in the attempt number |
| Backoff.CappedDelaySchedule | src/utils.js:27-30 | with RETRY_CONFIG the capped delays are 5000, 10000, 20000 and 40000 ms for attempts 1-4, and 60000 ms from attempt 5 on |
| Backoff.BackoffDelayBounds | src/utils.js:31-33 | for r in [0,1) the delay lies between round(capped*(1-jitter)) and round(capped*(1+jitter)) |
| Backoff.BackoffDelayWithoutJitter | src/utils.js:31-33 | with r = 0.5 or a zero jitter factor the delay is the rounded capped delay, and a whole capped delay is kept exactly |
| Backoff.ShippedDelayRange | src/utils.js:27-34 | with RETRY_CONFIG every delay lies in [4000, 72000] ms, and the first in [4000, 6000] ms |
| Backoff.DelayNonNegative | src/utils.js:27-34 | for any config with a jitter factor in [0, 1], a non-negative capped delay and r in [0, 1), the delay is non-negative, without a clamp |
| Backoff.NegativeDelayWithoutClamp | src/utils.js:31-33 | no clamp at zero: with jitter factor 2 and r = 0 the first delay is -5000 |
| Retry.SleepAfter | src/utils.js:46-50 | the sleep after failed attempt k: one of `calculateBackoffDelay(k)` ms, none after the last allowed attempt; `FailedStep` states its effect on a trace |
| Retry.FailedTrace | src/utils.js:38-50 | the reference log of k failed attempts, against which `WithRetry` is proved; `FailedTraceCounts` and `Exhaustion` count its calls and sleeps |
| Retry.WithRetry | src/utils.js:36-54 | returns a value exactly when some attempt up to maxRetries succeeds. That value is the first success, the log is the failed attempts' calls and sleeps followed by one call, and nothing runs after the success. On exhaustion the log is maxRetries calls, with one sleep between consecutive calls, and the error is the last attempt's own error (undefined when maxRetries is 0) |
| Retry.Delays | src/utils.js:47 | the schedule of the first k backoff delays has k entries |
| Retry.FailedStep | src/utils.js:38-50 | a failed attempt adds one call, then one sleep of calculateBackoffDelay(attempt) unless it is the last allowed attempt |
| Retry.FailedTraceCounts | src/utils.js:38-50 | k failed attempts make k calls and sleep the delays of attempts 1..k, less the last one when k = maxRetries |
| Retry.SuccessAfterFailures | src/utils.js:38-50 | k failures and then a success make k+1 calls and exactly k sleeps, with delays of attempts 1..k in order |
| Retry.Exhaustion | src/utils.js:38-53 | when every attempt fails: maxRetries calls, maxRetries-1 sleeps in schedule order, and the last event is the final call |
| Retry.ShippedExhaustionSleeps | src/utils.js:46-49 | with RETRY_CONFIG an exhausted run sleeps four times, 5, 10, 20 and 40 s each +/-20%, at most 90 s in all |
| Retry.DelaysAt | src/utils.js:47 | the i-th scheduled sleep is the backoff delay of attempt i+1 |
| RssExtractor.Extract | src/rss.js:3-21 | `extractRssContent` with its three stages and null; characterised stage by stage by `ExtractPreWithRss`, `ExtractFromPage`, `ExtractDecodedPre` and as a whole by `ExtractNullIff` |
| RssExtractor.MatchSpan | src/rss.js:8 | the reading of `/<rss[\s\S]*<\/rss>/i`: a case-insensitive `<rss` at i and a `</rss>` at j with j at least 4 units after i; used by `RssMatch`, `ExtractNullIff` and `LegacyFailsIff` |
| RssExtractor.FirstOpen | src/rss.js:8 | the first case-insensitive `<rss` at or after the start position, or none |
| RssExtractor.LastClose | src/rss.js:8 | the last case-insensitive `</rss>` in a range, or none |
| RssExtractor.RssMatch | src/rss.js:8 | the match begins at the first `<rss` of the page and ends with the last `</rss>` starting at least 4 units after it; no match exactly when no `<rss` has a `</rss>` after it |
| RssExtractor.MatchedText | src/rss.js:10 | the matched text starts with `<rss` and ends with `</rss>` |
| RssExtractor.ExactOpenIsOpen | src/rss.js:4 | a case-sensitive `<rss` is also a case-insensitive one |
| RssExtractor.TrimKeepsOpen | src/rss.js:4-5 | trimming keeps a `<rss` |
| RssExtractor.ExtractPreWithRss | src/rss.js:4-6 | a `<pre>` text holding `<rss` is returned trimmed, whatever the page holds |
| RssExtractor.PageHasMatch | src/rss.js:8-9 | a page with a `<rss ... </rss>` span makes the match succeed |
| RssExtractor.PageTags | src/rss.js:10 | the declaration plus the match holds `<rss` right after the declaration and ends with `</rss>` |
| RssExtractor.ExtractFromPage | src/rss.js:8-11 | stage 2: the result is the declaration + page[i..j+6], untrimmed, starting `<rss` after the declaration and ending with `</rss>` |
| RssExtractor.PrefixKeepsTags | src/rss.js:10 | prepending the declaration does not disturb the match's tags |
| RssExtractor.PageMatchBeatsDecoding | src/rss.js:8-17 | when the page matches, the `<pre>` text is not decoded or consulted |
| RssExtractor.ExtractDecodedPre | src/rss.js:13-17 | stage 3: the trimmed decoded `<pre>` text is returned when it holds `<rss`, and still holds it |
| RssExtractor.ExtractNullIff | src/rss.js:3-21 | null exactly when the `<pre>` text lacks `<rss` before and after decoding and the page has no match |
| RssExtractor.ExtractResultHasRss | src/rss.js:3-21 | every result holds a case-insensitive `<rss` (stage 2's regex is `/i`) |
| RssExtractor.NoLtNoMatch | src/rss.js:8 | a page without `<` has no match |
| RssExtractor.EscapedFeedRecovered | src/rss.js:13-17 | a feed shown escaped in `<pre>`, with no literal `;` or no literal `&`, and no surrounding whitespace, is recovered unchanged whenever the page has no match |
| RssExtractor.RecoveredExample | src/rss.js:13-17 | `<rss>Z</rss>` shown escaped on the page `no rss here` is recovered |
| RssExtractor.DecodedPreExample | src/rss.js:13-17 | `("&lt;rss&gt;Z&lt;/rss&gt;", "no rss here")` gives `<rss>Z</rss>` |
| LegacyFetcher.DecodeLegacy | index.js:6-13 | the older `decodeHtmlEntities`: lt, gt, amp and quot passes, then decimal references only; characterised by `DecodeLegacyEscapeRoundTrip` and the lemmas below |
| LegacyFetcher.DecodeLegacyNoAmp | index.js:6-13 | the older decoder returns text without `&` unchanged |
| LegacyFetcher.DecodeLegacyKeepsApos | index.js:6-13 | the older decoder has no apos pass: `&apos;` stays |
| LegacyFetcher.DecodeLegacyAposExample | index.js:6-13 | `x&apos;y` is unchanged by the older decoder and becomes `x'y` under the newer one |
| LegacyFetcher.PassesSkipLetter | index.js:7-12 | the older passes leave a leading non-`&` unit alone |
| LegacyFetcher.LegacyKeepsHexShape | index.js:12 | the decimal pass leaves `&#x...` alone, because `x` is not a digit |
| LegacyFetcher.DecodeLegacyKeepsHexRef | index.js:6-13 | `&#x3C;` is unchanged by the older decoder and becomes `<` under the newer one |
| LegacyFetcher.DecodeLegacyEscapeRoundTrip | index.js:6-13 | the older decoder undoes the escaping of `<`, `>`, `&` and `"` for text without a literal `;` or without a literal `&` |
| LegacyFetcher.ExtractLegacy | index.js:38-57 | the extraction in `fetchRSSFeed`, with the thrown error as `Failed("No RSS content found")`; characterised by the `LegacyStage*` lemmas and `LegacyFailsIff` |
| LegacyFetcher.LegacyStage1 | index.js:38-40 | a `<pre>` text holding `<rss` is returned trimmed, whatever the page holds, and the result still holds `<rss` |
| LegacyFetcher.LegacyStage2 | index.js:42-47 | otherwise, when the page has a `<rss ... </rss>` span, the result is the XML declaration followed by the page from its first `<rss` to the end of its last `</rss>` |
| LegacyFetcher.LegacyStage3 | index.js:49-55 | otherwise, when the text decoded by the older decoder holds `<rss`, the result is that text trimmed, even where the newer decoder would decode it differently |
| LegacyFetcher.LegacyEscapedFeedRecovered | index.js:38-55 | a feed shown in `<pre>` with `<`, `>`, `&` and `"` escaped, no literal `;` or no literal `&`, and no surrounding whitespace, is recovered unchanged whenever the page has no match |
| LegacyFetcher.LegacyAgreesWithExtract | index.js:38-57 | where the two decoders agree on the `<pre>` text, the older extraction returns what extractRssContent returns, and fails with "No RSS content found" exactly where it returns null |
| LegacyFetcher.LegacyAgreesWithoutAmp | index.js:38-57 | in particular the two agree on `<pre>` text without `&` |
| LegacyFetcher.LegacyFailsIff | index.js:38-57 | the older extraction fails exactly when the `<pre>` text lacks `<rss` before and after older decoding and the page has no match |

## Left out

- The browser drivers in src/fetcher.js (Puppeteer and Playwright launch, navigation, close, and the primary-to-secondary fallback) and the browser code of index.js:15-36 wrap foreign libraries and are not part of this model.
- `logDebugInfo` (src/rss.js:23-32) does page I/O and console output.
- `main`, the file writes and the process exit (src/index.js, index.js:63-74) are I/O.
- The timer behind `sleep`: each sleep is an `Slept(ms)` event in the log of `Retry.WithRetry`.
- `Math.random`: the draw for attempt a is the parameter `random(a)`.
- The console logging in `withRetry` and its `toFixed(1)` formatting are output; the one way that logging changes the outcome is stated in the Retry.WithRetry line below.
- The `name` argument of `withRetry` is used only in log messages, so it is not a parameter.
- Retry.WithRetry: the operation is a script `op(a)` of how attempt a ends, so `await` and asynchrony are not modelled.
- Retry.WithRetry: every error is assumed to be an object with a `message`, as the `Error`s thrown in src/fetcher.js are. src/utils.js:43-45 reads `error.message` inside the catch block, so a rejection with `null` or `undefined` would make that line throw a TypeError out of `withRetry` at once, with no further attempts. The model does not capture that case.
- Backoff: JavaScript numbers are modelled as exact reals, so IEEE-754 rounding of `Math.pow` and of the jitter product is not modelled.
- Backoff.BackoffDelay: requires attempt >= 1, the only values `withRetry` passes. Math.pow with a negative exponent is not modelled.
- EntityDecoder.DigitsValue: a numeric reference's value is the exact integer mod 65536. `parseInt` and `Number` give a double, which holds the value exactly only below 2^53. That covers every decimal reference of at most 15 digits and every hex reference of at most 13 digits, ignoring leading zeros. Above 2^53 the value may be rounded, and its low 16 bits can then differ from the model's. A value too large for a double becomes Infinity, which `String.fromCharCode` maps to 0.
- RssExtractor.AsciiLower: the case-insensitive match folds only ASCII letters. This is exact for the letters of `<rss` and `</rss>` under the non-Unicode canonicalisation of `/i`, where no non-ASCII unit folds to an ASCII one.
- The rest of src/config.js (URL, output file name, page timeouts, browser arguments, user agent) serves only the I/O layer. Only RETRY_CONFIG is modelled, as `Backoff.RETRY_CONFIG`.
