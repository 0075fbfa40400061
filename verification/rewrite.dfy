/** The divide-at-first-match rewriting engine behind `heightLight`,
    `replaceAll(String[])` and `replaceAllArray`, together with the
    single-pattern `replaceAll`, which the source writes out on its own and
    `ReplaceAllOne` proves equal to the array variant on a one-element array.

    Every variant does the same thing: find the split (`PatternScan.SplitsAt`),
    rewrite the text before it and the text after it recursively, and join the
    two around a span that depends only on which pattern matched. The engine
    takes that span as `spans[i]` for pattern `i`. */
module Rewriter {
  import opened PatternScan
  import opened Seqs

  /** The builder the Java code assembles, with its final check: an empty
      builder gives back the original text instead. So the result is the
      joined pieces whenever they are not all empty, and it is empty only
      when both the pieces and the original text are. */
  function Assemble(before: string, span: string, after: string, text: string): (r: string)
    ensures |before| + |span| + |after| > 0 ==> r == before + span + after
    ensures |r| == 0 <==> |before| + |span| + |after| == 0 && |text| == 0
  {
    if |before| + |span| + |after| == 0 then text else before + span + after
  }

  /** The engine. Matched pattern `i` becomes `spans[i]`; text outside the
      matches is kept. A text in which no pattern occurs comes back
      unchanged, and the result is empty only for empty input: an empty
      builder gives back the original text. */
  function Rewrite(text: string, pats: seq<string>, spans: seq<string>): (r: string)
    requires NonEmptyPatterns(pats) && |spans| >= |pats|
    ensures |r| == 0 <==> |text| == 0
    ensures NoneOccur(text, pats) ==> r == text
    decreases |text|, 1
  {
    if |text| == 0 then text
    else
      var m := FirstMatch(text, pats);
      if m.None? then text
      else RewriteAt(text, pats, spans, m.value.pattern, m.value.offset)
  }

  /** The engine's step once the scan reported pattern `i` at `idx`. The
      text holds a non-empty pattern, so the step never yields an empty
      text. */
  function RewriteAt(text: string, pats: seq<string>, spans: seq<string>, i: nat, idx: nat): (r: string)
    requires NonEmptyPatterns(pats) && |spans| >= |pats|
    requires i < |pats| && idx + |pats[i]| <= |text|
    ensures |r| > 0
    decreases |text|, 0
  {
    Assemble(Rewrite(text[..idx], pats, spans),
             spans[i],
             Rewrite(text[idx + |pats[i]|..], pats, spans),
             text)
  }

  /** One step of the engine, stated through the split it makes: the lowest
      numbered pattern that occurs, at its first occurrence, replaced by the
      span of the same number. */
  lemma RewriteSplit(text: string, pats: seq<string>, spans: seq<string>, i: nat, idx: nat)
    requires NonEmptyPatterns(pats) && |spans| >= |pats|
    requires SplitsAt(text, pats, i, idx)
    ensures Rewrite(text, pats, spans)
         == Assemble(Rewrite(text[..idx], pats, spans),
                     spans[i],
                     Rewrite(text[idx + |pats[i]|..], pats, spans),
                     text)
  {
    FirstMatchSplits(text, pats, i, idx);
  }

  /** Unfolds the engine once, given the scan's answer. */
  lemma RewriteUnfold(text: string, pats: seq<string>, spans: seq<string>, i: nat, idx: nat)
    requires NonEmptyPatterns(pats) && |spans| >= |pats|
    requires FirstMatch(text, pats) == Some(Match(i, idx))
    requires i < |pats| && 0 < |text| && idx + |pats[i]| <= |text|
    ensures Rewrite(text, pats, spans)
         == Assemble(Rewrite(text[..idx], pats, spans),
                     spans[i],
                     Rewrite(text[idx + |pats[i]|..], pats, spans),
                     text)
  {
  }

  /** `RewriteSplit` for every split at once. */
  lemma RewriteSplits(text: string, pats: seq<string>, spans: seq<string>)
    requires NonEmptyPatterns(pats) && |spans| >= |pats|
    ensures forall i: nat, idx: nat | SplitsAt(text, pats, i, idx) ::
              Rewrite(text, pats, spans)
              == Assemble(Rewrite(text[..idx], pats, spans),
                          spans[i],
                          Rewrite(text[idx + |pats[i]|..], pats, spans),
                          text)
  {
    forall i: nat, idx: nat | SplitsAt(text, pats, i, idx)
      ensures Rewrite(text, pats, spans)
              == Assemble(Rewrite(text[..idx], pats, spans),
                          spans[i],
                          Rewrite(text[idx + |pats[i]|..], pats, spans),
                          text)
    {
      RewriteSplit(text, pats, spans, i, idx);
    }
  }

  /** `replaceAllArray(text, replaceStrs, newStrs)`: the matched pattern `i` is
      replaced by `newStrs[i]`. */
  function ReplaceAllArray(text: string, pats: seq<string>, news: seq<string>): (r: string)
    requires NonEmptyPatterns(pats) && |news| >= |pats|
    ensures NoneOccur(text, pats) ==> r == text
    ensures |r| == 0 <==> |text| == 0
    ensures forall i: nat, idx: nat | SplitsAt(text, pats, i, idx) ::
              r == Assemble(ReplaceAllArray(text[..idx], pats, news),
                            news[i],
                            ReplaceAllArray(text[idx + |pats[i]|..], pats, news),
                            text)
    decreases |text|
  {
    RewriteSplits(text, pats, news);
    Rewrite(text, pats, news)
  }

  /** `replaceAll(text, String[] replaceStrs, newStr)`: whichever pattern
      matched is replaced by the same `newStr`. */
  function ReplaceAllPatterns(text: string, pats: seq<string>, newStr: string): (r: string)
    requires NonEmptyPatterns(pats)
    ensures NoneOccur(text, pats) ==> r == text
    ensures |r| == 0 <==> |text| == 0
    ensures forall i: nat, idx: nat | SplitsAt(text, pats, i, idx) ::
              r == Assemble(ReplaceAllPatterns(text[..idx], pats, newStr),
                            newStr,
                            ReplaceAllPatterns(text[idx + |pats[i]|..], pats, newStr),
                            text)
    decreases |text|
  {
    RewriteSplits(text, pats, Uniform(pats, newStr));
    Rewrite(text, pats, Uniform(pats, newStr))
  }

  /** The spans of `replaceAll(String[])`: the same `newStr` for every pattern. */
  function Uniform(pats: seq<string>, newStr: string): (r: seq<string>)
    ensures |r| == |pats| && forall i :: 0 <= i < |pats| ==> r[i] == newStr
  {
    seq(|pats|, _ => newStr)
  }

  /** The span `heightLight` emits for each pattern: the pattern between the
      two markers. */
  function Wrapped(pats: seq<string>, beginStr: string, endStr: string): (r: seq<string>)
    ensures |r| == |pats| && forall i :: 0 <= i < |pats| ==> r[i] == beginStr + pats[i] + endStr
  {
    seq(|pats|, i requires 0 <= i < |pats| => beginStr + pats[i] + endStr)
  }

  /** `heightLight(text, replaceStrs, beginStr, endStr)`: the matched pattern
      is emitted between `beginStr` and `endStr`. Only pieces of the original
      text are searched again, so the markers are never matched. */
  function Highlight(text: string, pats: seq<string>, beginStr: string, endStr: string): (r: string)
    requires NonEmptyPatterns(pats)
    ensures NoneOccur(text, pats) ==> r == text
    ensures |r| == 0 <==> |text| == 0
    ensures forall i: nat, idx: nat | SplitsAt(text, pats, i, idx) ::
              r == Assemble(Highlight(text[..idx], pats, beginStr, endStr),
                            beginStr + pats[i] + endStr,
                            Highlight(text[idx + |pats[i]|..], pats, beginStr, endStr),
                            text)
    decreases |text|
  {
    RewriteSplits(text, pats, Wrapped(pats, beginStr, endStr));
    Rewrite(text, pats, Wrapped(pats, beginStr, endStr))
  }

  /** Replacing every pattern by itself changes nothing: the engine only ever
      cuts the text at occurrences and puts the pieces back in order. */
  lemma {:induction false} RewriteIdentity(text: string, pats: seq<string>, spans: seq<string>)
    requires NonEmptyPatterns(pats) && |spans| >= |pats|
    requires forall i :: 0 <= i < |pats| ==> spans[i] == pats[i]
    ensures Rewrite(text, pats, spans) == text
    decreases |text|
  {
    var m := FirstMatch(text, pats);
    if |text| > 0 && m.Some? {
      var i, idx := m.value.pattern, m.value.offset;
      RewriteUnfold(text, pats, spans, i, idx);
      RewriteIdentity(text[..idx], pats, spans);
      RewriteIdentity(text[idx + |pats[i]|..], pats, spans);
      SplitAround(text, idx, |pats[i]|);
    }
  }

  /** With empty markers `heightLight` gives the text back. */
  lemma HighlightEmptyMarkers(text: string, pats: seq<string>)
    requires NonEmptyPatterns(pats)
    ensures Highlight(text, pats, [], []) == text
  {
    RewriteIdentity(text, pats, Wrapped(pats, [], []));
  }

  /** The text before the first occurrence of a non-empty pattern contains no
      occurrence of it. */
  lemma NoOccurrenceBefore(text: string, pat: string, idx: int)
    requires |pat| > 0 && FirstOccurrence(text, pat, idx)
    ensures !Occurs(text[..idx], pat)
  {
    forall k | 0 <= k <= idx && OccursAt(text[..idx], pat, k)
      ensures false
    {
      assert text[..idx][k..k + |pat|] == text[k..k + |pat|];
      assert OccursAt(text, pat, k);
    }
  }

  /** `replaceAll(text, String replaceStr, newStr)`: the single-pattern
      variant, which the source writes out separately, without the loop over
      a pattern array. A text without the pattern comes back unchanged, and
      the result is empty only for empty input. */
  function ReplaceAll(text: string, pat: string, newStr: string): (r: string)
    requires |pat| > 0
    ensures |r| == 0 <==> |text| == 0
    ensures !Occurs(text, pat) ==> r == text
    decreases |text|, 1
  {
    if |text| == 0 then text
    else
      var idx := IndexOf(text, pat);
      if idx < 0 then text
      else ReplaceAllAt(text, pat, newStr, idx)
  }

  /** The single-pattern step once `indexOf` reported `idx`; like
      `RewriteAt`, it never yields an empty text. */
  function ReplaceAllAt(text: string, pat: string, newStr: string, idx: nat): (r: string)
    requires |pat| > 0 && idx + |pat| <= |text|
    ensures |r| > 0
    decreases |text|, 0
  {
    Assemble(ReplaceAll(text[..idx], pat, newStr),
             newStr,
             ReplaceAll(text[idx + |pat|..], pat, newStr),
             text)
  }

  /** The single-pattern rewrite splits at the first occurrence; the text
      before it contains no occurrence and is passed through untouched. */
  lemma ReplaceAllSplit(text: string, pat: string, newStr: string, idx: nat)
    requires |pat| > 0 && FirstOccurrence(text, pat, idx)
    ensures ReplaceAll(text, pat, newStr)
         == Assemble(text[..idx], newStr, ReplaceAll(text[idx + |pat|..], pat, newStr), text)
  {
    IndexOfFirst(text, pat, idx);
    ReplaceAllUnfold(text, pat, newStr, idx);
    NoOccurrenceBefore(text, pat, idx);
  }

  /** The single-pattern `replaceAll` is the array variant with a one-element
      array: `indexOf` and the scan over `{replaceStr}` find the same split. */
  lemma {:induction false} ReplaceAllOne(text: string, pat: string, newStr: string)
    requires |pat| > 0
    ensures ReplaceAllPatterns(text, [pat], newStr) == ReplaceAll(text, pat, newStr)
    decreases |text|
  {
    var idx := IndexOf(text, pat);
    if |text| > 0 && idx >= 0 {
      assert SplitsAt(text, [pat], 0, idx);
      ReplaceAllUnfold(text, pat, newStr, idx);
      ReplaceAllOne(text[..idx], pat, newStr);
      ReplaceAllOne(text[idx + |pat|..], pat, newStr);
    } else {
      assert NoneOccur(text, [pat]);
    }
  }

  /** Unfolds the single-pattern rewrite once, given `indexOf`'s answer. */
  lemma ReplaceAllUnfold(text: string, pat: string, newStr: string, idx: nat)
    requires |pat| > 0 && IndexOf(text, pat) == idx && idx + |pat| <= |text|
    ensures ReplaceAll(text, pat, newStr)
         == Assemble(ReplaceAll(text[..idx], pat, newStr),
                     newStr,
                     ReplaceAll(text[idx + |pat|..], pat, newStr),
                     text)
  {
  }
}
