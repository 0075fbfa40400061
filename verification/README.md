# StringUtil core, modelled in Dafny

A model of the text-handling core of the `StringUtil` toolkit
(`com.hilltop.util.StringUtil`), with the properties proved about it:

- **Blankness and length checks.** `isBlank(Object)` with Java's `trim`,
  `isBlanks(Object...)` and `checkLength` (module `Blank`, `blank.dfy`).
- **Byte-budget truncation.** `subString(str, byteLength)` cuts a string to
  the longest prefix whose platform encoding fits in `byteLength` bytes
  (module `ByteTruncation`, `truncate.dfy`). The platform charset is a
  parameter: `byteLen(c)` is the number of bytes the charset writes for `c`.
- **Literal pattern search.** `String.indexOf` and the array-order scan of
  the multi-pattern rewriters (module `PatternScan`, `scan.dfy`).
- **The divide-at-first-match rewriters.** `replaceAllArray`, both
  `replaceAll` overloads and `heightLight` (module `Rewriter`,
  `rewrite.dfy`). Each finds a split: the first pattern in array order
  that occurs anywhere, at its first occurrence. It then rewrites the text
  before and after the split recursively. Last, it joins the pieces around
  a span: `newStrs[i]`, `newStr`, or the pattern between the two markers.
  If the joined builder is empty, the method returns the original text
  instead.
- **A reference for the single-pattern `replaceAll`.** The usual
  left-to-right replacement, and what the rewrite gives compared with it
  (module `LeftToRight`, `reference.dfy`).
- **The HTML entity codec.** `encodeHTML` is a linear scan that escapes
  `<`, `>`, `&` and `"`. `decodeHTML` is one run of `replaceAllArray` over
  the table `&amp; &lt; &gt; &quot;` (module `HtmlEntities`, `html.dfy`).
- **Worked cases of the rewriters.** These are derived from the
  definitions (module `RewriteScenarios`, `scenarios.dfy`).
- **Sequence facts.** Generic facts about slices and concatenation, used by
  the proofs (module `Seqs`, `seqs.dfy`).

All source paths below are in `src/com/hilltop/util/StringUtil.java`.

## Model

| member | source | states |
|---|---|---|
| Blank.Trim | src/com/hilltop/util/StringUtil.java:204 | The trimmed text sits inside the original with only characters at most U+0020 around it, and starts and ends with a character above U+0020. It is empty exactly when every character is at most U+0020. |
| Blank.IsBlank | src/com/hilltop/util/StringUtil.java:201-207 | A value is blank exactly when it is null, or a string all of whose characters are at most U+0020. Objects that are not strings are never blank. |
| Blank.IsBlanks | src/com/hilltop/util/StringUtil.java:305-311 | True exactly when at least one argument is blank. |
| Blank.CheckLength | src/com/hilltop/util/StringUtil.java:100-110 | A blank string never passes. Otherwise it passes when its untrimmed length is at least `minLength` and at most `maxLength`, with the upper bound dropped when `maxLength` is 0 and `minLength` is not. |
| ByteTruncation.SubString | src/com/hilltop/util/StringUtil.java:69-87 | Blank input gives "". Otherwise the result is the longest prefix whose encoding fits in the budget, and it is the whole string when the string fits. |
| ByteTruncation.ReadWithin | src/com/hilltop/util/StringUtil.java:76-86 | The copy loop returns a prefix that fits in the budget. If it stops early, the next character would have exceeded the budget. |
| ByteTruncation.FitOfCut | src/com/hilltop/util/StringUtil.java:74-75 | Cutting the string to `byteLength` characters before the loop loses no answer: what the loop finds in the cut text is the longest fit in the whole string. |
| ByteTruncation.ByteSumAtLeastLength | src/com/hilltop/util/StringUtil.java:74-75 | A text takes at least as many bytes as it has characters. This is why the character cut is safe. |
| ByteTruncation.ByteSumMonotone | src/com/hilltop/util/StringUtil.java:78-83 | A longer prefix never takes fewer bytes, so the first character over budget ends the search. |
| ByteTruncation.LongestFitUnique | src/com/hilltop/util/StringUtil.java:69-87 | The longest fitting prefix is unique, so the truncation has exactly one correct answer. |
| ByteTruncation.WideFirstCharacter | src/com/hilltop/util/StringUtil.java:80-83 | Characters are never split: if the first character alone exceeds the budget, the result is empty. |
| PatternScan.MatchesAtSpec | src/com/hilltop/util/StringUtil.java:610 | The character-by-character comparison succeeds exactly where the pattern occurs. |
| PatternScan.IndexFromSpec | src/com/hilltop/util/StringUtil.java:610 | A search from an offset reports the first occurrence at or after it, and -1 only when there is none. |
| PatternScan.IndexOf | src/com/hilltop/util/StringUtil.java:610 | `indexOf` is -1 exactly when the pattern does not occur, and otherwise the offset of its first occurrence, where the whole pattern fits in the text. |
| PatternScan.IndexOfEmpty | src/com/hilltop/util/StringUtil.java:610 | An empty pattern is found at offset 0 of every text, which is why an empty pattern never shrinks the text the rewriters recurse on. |
| PatternScan.IndexOfFirst | src/com/hilltop/util/StringUtil.java:610 | Any first occurrence is the one `indexOf` reports. |
| PatternScan.FirstMatchFromSpec | src/com/hilltop/util/StringUtil.java:641-656 | The loop over the pattern array from pattern `i` on reports nothing exactly when none of those patterns occurs. Otherwise it reports the first of them that occurs, at its first occurrence. |
| PatternScan.FirstMatch | src/com/hilltop/util/StringUtil.java:641-656 | The loop over the pattern array finds nothing exactly when no pattern occurs. Otherwise it reports the lowest-numbered pattern that occurs anywhere, at that pattern's first occurrence. |
| PatternScan.FirstMatchSplits | src/com/hilltop/util/StringUtil.java:641-656 | The loop reports pattern `i` at `idx` exactly when `i` is the lowest-numbered occurring pattern and `idx` is its first occurrence. |
| PatternScan.OccursShift | src/com/hilltop/util/StringUtil.java:648 | An occurrence past the end of a prefix is an occurrence in the rest, at the shifted offset. |
| Rewriter.Assemble | src/com/hilltop/util/StringUtil.java:556-558 | The builder check: the result is the joined pieces whenever they are not all empty, and it is empty only when both the pieces and the original text are. |
| Rewriter.Rewrite | src/com/hilltop/util/StringUtil.java:641-659 | The engine shared by the three array rewriters; `ReplaceAllOne` ties the single-pattern `replaceAll` to it: a text in which no pattern occurs comes back unchanged, and the result is empty exactly when the input is. |
| Rewriter.RewriteAt | src/com/hilltop/util/StringUtil.java:645-659 | A step at an occurrence of a non-empty pattern never yields an empty text. |
| Rewriter.ReplaceAllArray | src/com/hilltop/util/StringUtil.java:636-660 | A text in which no pattern occurs comes back unchanged. The result is empty only for empty input. At the split, the result joins the rewritten text before it, `newStrs[i]` and the rewritten text after it, with the empty-builder fallback. |
| Rewriter.ReplaceAllPatterns | src/com/hilltop/util/StringUtil.java:570-594 | The same three facts as for `replaceAllArray`, with every pattern replaced by the one `newStr`. |
| Rewriter.Highlight | src/com/hilltop/util/StringUtil.java:534-559 | The same three facts, with the matched pattern kept between `beginStr` and `endStr`. Only pieces of the original are searched again. |
| Rewriter.RewriteSplit | src/com/hilltop/util/StringUtil.java:641-659 | The engine's step, stated through the split: the text before and after it is rewritten, and the matched pattern's span goes between. |
| Rewriter.RewriteSplits | src/com/hilltop/util/StringUtil.java:641-659 | The step holds at every split. |
| Rewriter.RewriteIdentity | src/com/hilltop/util/StringUtil.java:636-660 | Replacing every pattern by itself changes nothing. The engine only cuts at occurrences and joins the pieces back in order. |
| Rewriter.HighlightEmptyMarkers | src/com/hilltop/util/StringUtil.java:551 | With empty markers, `heightLight` gives the text back. |
| Rewriter.NoOccurrenceBefore | src/com/hilltop/util/StringUtil.java:614 | The text before the first occurrence contains no occurrence. |
| Rewriter.ReplaceAll | src/com/hilltop/util/StringUtil.java:605-625 | `replaceAll(text, replaceStr, newStr)`: a text without the pattern comes back unchanged, and the result is empty exactly when the input is. `ReplaceAllSplit` gives its step and `LeftToRight.ReplaceAllIsLeftToRight` its meaning. |
| Rewriter.ReplaceAllOne | src/com/hilltop/util/StringUtil.java:570-625 | The single-pattern `replaceAll(text, replaceStr, newStr)` gives the same result as `replaceAll(text, new String[]{replaceStr}, newStr)` on every text: `indexOf` and the one-element scan make the same split. |
| Rewriter.ReplaceAllAt | src/com/hilltop/util/StringUtil.java:611-624 | The single-pattern step at an occurrence never yields an empty text. |
| Rewriter.ReplaceAllSplit | src/com/hilltop/util/StringUtil.java:605-625 | The single-pattern rewrite keeps the text before the first occurrence as it is, writes `newStr`, and rewrites the rest, with the empty-builder fallback. |
| LeftToRight.RefNoMatch | src/com/hilltop/util/StringUtil.java:610-611 | The left-to-right replacement leaves a text without the pattern unchanged. |
| LeftToRight.RefSplit | src/com/hilltop/util/StringUtil.java:613-620 | The left-to-right replacement copies the text before the first occurrence, writes `newStr`, and carries on after it. This is the split the Java method makes. |
| LeftToRight.TailOccursAt | src/com/hilltop/util/StringUtil.java:610 | An occurrence in the tail is an occurrence one place further on in the text, and the converse holds too. |
| LeftToRight.FirstOccurrenceInTail | src/com/hilltop/util/StringUtil.java:610 | The first occurrence moves one place left in the tail. |
| LeftToRight.ReplaceAllIsLeftToRight | src/com/hilltop/util/StringUtil.java:605-625 | With a non-empty `newStr`, `replaceAll(text, replaceStr, newStr)` is exactly the left-to-right replacement of every non-overlapping occurrence. |
| LeftToRight.DeletionKeepsLastOccurrence | src/com/hilltop/util/StringUtil.java:619-623 | As written, deleting every `a` from `aa` leaves `a`. Both the left-to-right replacement and the corrected rewrite give "". |
| LeftToRight.ArrayDeletionKeepsLastOccurrence | src/com/hilltop/util/StringUtil.java:652-658 | As written, `replaceAllArray("aa", {"a"}, {""})` is "a" too: the multi-pattern rewriters share the empty-builder check. |
| LeftToRight.ReplaceAllIntended | src/com/hilltop/util/StringUtil.java:605-625 | The corrected single-pattern rewrite: a text without the pattern comes back unchanged, and a text with it gives a result at least as long as `newStr`. |
| LeftToRight.IntendedSplit | src/com/hilltop/util/StringUtil.java:613-620 | The corrected rewrite keeps the text before the first occurrence and writes `newStr` in place of the occurrence. |
| LeftToRight.IntendedIsLeftToRight | src/com/hilltop/util/StringUtil.java:605-625 | The corrected rewrite is the left-to-right replacement for every `newStr`, the empty one included. |
| RewriteScenarios.TieBreakArrayOrder | src/com/hilltop/util/StringUtil.java:641-656 | `replaceAllArray("ab", {"b","a"}, {"B","A"})` is "AB": the split is at `b`, and `a` is then replaced in the piece before it. |
| RewriteScenarios.FirstListedWins | src/com/hilltop/util/StringUtil.java:641-656 | `replaceAllArray("abc", {"bc","ab"}, {"X","Y"})` is "aX": the first listed pattern wins over one that occurs further left. |
| RewriteScenarios.HighlightOne | src/com/hilltop/util/StringUtil.java:534-559 | `heightLight("xay", {"a"}, "[", "]")` is "x[a]y". |
| RewriteScenarios.HighlightMarkersNotRescanned | src/com/hilltop/util/StringUtil.java:547-552 | `heightLight("ab", {"b"}, "<b>", "</b>")` is "a<b>b</b>": a marker that contains the pattern is not matched again. |
| HtmlEntities.EncodeHtml | src/com/hilltop/util/StringUtil.java:683-737 | Blank input gives "". Otherwise each reserved character becomes its entity and every other character is copied, in order (`EscapePlain`: a text without reserved characters comes back as it is). |
| HtmlEntities.EscapeScan | src/com/hilltop/util/StringUtil.java:686-706 | The search for the first reserved character, followed by the inner loop, computes the per-character escape. |
| HtmlEntities.EscapeRest | src/com/hilltop/util/StringUtil.java:707-733 | The inner loop extends the escape of the prefix it was given to the escape of the whole text. |
| HtmlEntities.EscapeRunThenReserved | src/com/hilltop/util/StringUtil.java:711-727 | At a reserved character after a plain run, appending the run and the entity extends the escaped prefix by one step. |
| HtmlEntities.EscapeRunToEnd | src/com/hilltop/util/StringUtil.java:731-732 | Appending the plain tail completes the escape. |
| HtmlEntities.EscapeConcat | src/com/hilltop/util/StringUtil.java:689-732 | Escaping works piece by piece: the escape of a concatenation is the concatenation of the escapes. |
| HtmlEntities.EscapePlain | src/com/hilltop/util/StringUtil.java:731-737 | A text without reserved characters escapes to itself. |
| HtmlEntities.DecodeHtml | src/com/hilltop/util/StringUtil.java:668-674 | The decoded text is empty exactly when the input is blank. |
| HtmlEntities.DecodePlain | src/com/hilltop/util/StringUtil.java:668-674 | Blank input decodes to "". A non-blank text without `&` comes back unchanged. |
| HtmlEntities.EntityTable | src/com/hilltop/util/StringUtil.java:671-672 | The decoding table has no empty pattern and a replacement for every pattern. |
| HtmlEntities.EntityIndex | src/com/hilltop/util/StringUtil.java:671-672 | Each reserved character's entity is in the decoding table, and the same row maps it back to the character. |
| HtmlEntities.EntityShape | src/com/hilltop/util/StringUtil.java:671 | Every entity in the decoding table starts with `&` and is at least two characters long. |
| HtmlEntities.EntityDistinct | src/com/hilltop/util/StringUtil.java:671 | A reserved character's entity has no `&` after its first character, and its second character picks out its own row of the table. |
| HtmlEntities.EscapeAt | src/com/hilltop/util/StringUtil.java:691-705 | A reserved character shows up in the escaped text as its entity, right after the escape of the text before it. |
| HtmlEntities.EntityAligned | src/com/hilltop/util/StringUtil.java:671-673 | Every entity occurrence in an escaped text was written by the escaping. It sits exactly where a reserved character went, and it is that character's entity. |
| HtmlEntities.RewriteEscaped | src/com/hilltop/util/StringUtil.java:671-673 | Running the decoding table over an escaped text gives the original back, whatever order the scan picks the entities in. |
| HtmlEntities.EscapeNotBlank | src/com/hilltop/util/StringUtil.java:684-685 | Escaping keeps a non-blank text non-blank. |
| HtmlEntities.DecodeEncode | src/com/hilltop/util/StringUtil.java:668-737 | `decodeHTML(encodeHTML(s)) == s` for every non-blank `s`. |
| HtmlEntities.DecodeEncodeBlank | src/com/hilltop/util/StringUtil.java:669-670 | A blank `s` has nothing to escape, and decoding it gives "", so the round trip fails on every non-empty blank text (and holds on "" alone). |
| HtmlEntities.DecodeSinglePass | src/com/hilltop/util/StringUtil.java:668-674 | Decoding is a single pass: `&amp;lt;` decodes to `&lt;`, not to `<`. |

## Notes on the code

These behaviours of the code are modelled as the code has them:

- The scan picks the first pattern in array order, not the leftmost occurrence. `replaceAllArray("ab", {"b","a"}, {"B","A"})` gives "AB" (`RewriteScenarios.TieBreakArrayOrder`), and `replaceAllArray("abc", {"bc","ab"}, {"X","Y"})` gives "aX" (`RewriteScenarios.FirstListedWins`).
- `subString` returns "" for every blank input, a string of spaces included (lines 70-71).
- `subString` throws for a negative budget on non-blank input (line 75).

## Left out

- Other utilities in `StringUtil` are not modelled: regular expressions, URL encoding, charset conversion, number and date parsing, `formatNumber`, `getOnlyString` and MD5.
- The platform charset is a parameter `byteLen`, with at least one byte per character. This model does not cover `getBytes` itself, surrogate pairs encoded separately, or a charset whose bytes for a whole string differ from the sum over its characters.
- Java `int` overflow of `readLen` and of string lengths is not modelled. Integers are unbounded.
- Null arguments are modelled only for `isBlank`, and for null elements of `isBlanks`; every other member takes non-null strings and arrays. In Java a null is harmless until it is read, and it throws `NullPointerException` only when it is read:
  - `checkLength(null, …)` returns false and `subString(null, …)` returns "" (lines 101-102 and 70-71, both through `isBlank`).
  - `isBlanks((Object[]) null)` throws at line 306; a `seq` of values cannot represent a missing array.
  - A null `text` throws at its `length()` check (lines 536, 572, 607, 638).
  - On an empty text every rewriter returns before it reads anything else, so `replaceAllArray("", null, null)` and `replaceAll("", (String) null, "x")` both return "".
  - A null pattern array throws at `replaceStrs.length` on a non-empty text (lines 539, 575, 641).
  - A null pattern throws in `indexOf` only when the scan reaches it (lines 541, 577, 610, 643). A null listed after the splitting pattern is not read by that call, but any recursive call on a non-empty piece in which no earlier pattern occurs reads it: `replaceAll("a", new String[]{"a", null}, "x")` returns "x", while `replaceAll("ab", new String[]{"a", null}, "x")` throws at line 577 in the call on "b".
  - A null `newStrs` array throws at line 652, and only when some pattern splits.
  - A null `newStr`, `newStrs[i]`, `beginStr` or `endStr` is appended as the four characters `null` (lines 551, 586, 619, 652).
- A model character is a Java `char` outside the surrogate range: Dafny's `char` is a Unicode scalar value, while Java's `length()`, `indexOf` offsets and `substring` count UTF-16 code units. Strings containing surrogate pairs are outside the model. For example, Java's `checkLength("\uD83D\uDE00", 2, 2)` is true because that one emoji is two `char`s, and the cut at line 75 can split a pair, which the model cannot represent.
- ByteTruncation.SubString: requires `byteLength >= 0` for non-blank input. On a negative budget the Java method calls `substring(0, byteLength)` and throws, so the exception is treated as a precondition.
- Rewriter.ReplaceAllArray: requires `|newStrs| >= |replaceStrs|`. The Java method throws only when a pattern without a replacement actually matches, so this precondition is stronger than the source's own.
- Rewriter.ReplaceAllArray, Rewriter.ReplaceAllPatterns, Rewriter.Highlight, Rewriter.ReplaceAll, Rewriter.Rewrite: require every pattern to be non-empty. When the scan reaches an empty pattern on a non-empty text, it is found at offset 0 and the method recurses on the same text until the stack overflows. Some inputs with an empty pattern do terminate in Java and are left out with it. With an empty text, every rewriter returns before it reads the patterns (lines 536, 572, 607, 638). An empty pattern listed after one that always splits first is never reached on a non-empty piece: `replaceAllArray("a", {"a",""}, {"X","Y"})` returns "X".
- Rewriter.ReplaceAll, Rewriter.ReplaceAllPatterns, Rewriter.ReplaceAllArray, Rewriter.Highlight, LeftToRight.ReplaceAllIsLeftToRight: call depth is not modelled. Every rewriter calls itself again on the text after each split (lines 552, 587, 620, 653), so the Java call depth grows with the number of matches. On a long text with many matches, such as `replaceAll` with pattern "a" on 100 000 `a`s, the JVM's stack is expected to overflow with `StackOverflowError`. The model returns a value for every input, and the equalities it proves hold only where the Java call completes.
- HtmlEntities.EncodeHtml and HtmlEntities.DecodeHtml take a non-null string. A null argument is blank and returns "", as the `isBlank` model covers.
## Findings

| source | as written | input that shows it | evidently intended | confidence | as-written member | corrected member |
|---|---|---|---|---|---|---|
| src/com/hilltop/util/StringUtil.java:622-623 | When the builder is empty, the method returns the original text. The same check sits at lines 556-557, 591-592 and 657-658. With an empty `newStr`, deleting a whole piece also leaves the builder empty, so the piece comes back undeleted. `replaceAllArray("aa", {"a"}, {""})` returns "a" in the same way (`LeftToRight.ArrayDeletionKeepsLastOccurrence`). | `replaceAll("aa", "a", "")` returns "a". | The check should only mean that nothing matched, so the result would be "", the left-to-right replacement. | not executed | LeftToRight.DeletionKeepsLastOccurrence | LeftToRight.IntendedIsLeftToRight |
