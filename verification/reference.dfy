/** A reference for the single-pattern `replaceAll`: the usual left-to-right
    replacement of every non-overlapping occurrence, and the comparison of the
    divide-at-first-match rewrite against it. */
module LeftToRight {
  import opened PatternScan
  import opened Rewriter
  import opened Seqs

  /** Replaces every occurrence of `pat`, scanning from the left and
      resuming after each replaced occurrence. */
  function RefReplace(text: string, pat: string, newStr: string): string
    requires |pat| > 0
    decreases |text|
  {
    if |text| < |pat| then text
    else if MatchesAt(text, pat, 0) then newStr + RefReplace(text[|pat|..], pat, newStr)
    else [text[0]] + RefReplace(text[1..], pat, newStr)
  }

  /** A text without the pattern is left as it is. */
  lemma {:induction false} RefNoMatch(text: string, pat: string, newStr: string)
    requires |pat| > 0 && !Occurs(text, pat)
    ensures RefReplace(text, pat, newStr) == text
    decreases |text|
  {
    if |pat| <= |text| {
      MatchesAtSpec(text, pat, 0);
      assert !OccursAt(text, pat, 0);
      NotOccursTail(text, pat);
      RefNoMatch(text[1..], pat, newStr);
      assert text == [text[0]] + text[1..];
    }
  }

  /** No occurrence in a text means no occurrence in its tail. */
  lemma NotOccursTail(text: string, pat: string)
    requires |text| > 0 && !Occurs(text, pat)
    ensures !Occurs(text[1..], pat)
  {
    forall k | 0 <= k <= |text[1..]| && OccursAt(text[1..], pat, k)
      ensures OccursAt(text, pat, k + 1)
    {
      TailOccursAt(text, pat, k);
    }
  }

  /** An occurrence in the tail is an occurrence one further on in the text. */
  lemma TailOccursAt(text: string, pat: string, k: nat)
    requires |text| > 0
    ensures OccursAt(text[1..], pat, k) <==> OccursAt(text, pat, k + 1)
  {
    if k + |pat| <= |text[1..]| {
      assert text[1..][k..k + |pat|] == text[k + 1..k + 1 + |pat|];
    }
  }

  /** The scan copies the text before the first occurrence, writes `newStr`
      and carries on after the occurrence. */
  lemma {:induction false} RefSplit(text: string, pat: string, newStr: string, idx: nat)
    requires |pat| > 0 && FirstOccurrence(text, pat, idx)
    ensures RefReplace(text, pat, newStr)
         == text[..idx] + newStr + RefReplace(text[idx + |pat|..], pat, newStr)
    decreases idx
  {
    if idx == 0 {
      RefAtStart(text, pat, newStr);
    } else {
      FirstOccurrenceInTail(text, pat, idx);
      RefSplit(text[1..], pat, newStr, idx - 1);
      RefSplitStep(text, pat, newStr, idx);
    }
  }

  /** The first occurrence moves one place left in the tail. */
  lemma FirstOccurrenceInTail(text: string, pat: string, idx: nat)
    requires 0 < idx && FirstOccurrence(text, pat, idx)
    ensures FirstOccurrence(text[1..], pat, idx - 1)
  {
    TailOccursAt(text, pat, idx - 1);
    forall j | 0 <= j < idx - 1
      ensures !OccursAt(text[1..], pat, j)
    {
      TailOccursAt(text, pat, j);
    }
  }

  /** `RefSplit` for a text from the same fact about its tail. */
  lemma RefSplitStep(text: string, pat: string, newStr: string, idx: nat)
    requires |pat| > 0 && 0 < idx && FirstOccurrence(text, pat, idx)
    requires RefReplace(text[1..], pat, newStr)
          == text[1..][..idx - 1] + newStr + RefReplace(text[1..][idx - 1 + |pat|..], pat, newStr)
    ensures RefReplace(text, pat, newStr)
         == text[..idx] + newStr + RefReplace(text[idx + |pat|..], pat, newStr)
  {
    var tail := text[1..];
    RefSkip(text, pat, newStr);
    TailPieces(text, idx, |pat|);
    Regroup(text[0], tail[..idx - 1], newStr, RefReplace(text[idx + |pat|..], pat, newStr),
            text[..idx], RefReplace(text, pat, newStr), RefReplace(tail, pat, newStr));
  }

  /** A text that starts with the pattern has it replaced. */
  lemma RefAtStart(text: string, pat: string, newStr: string)
    requires |pat| > 0 && OccursAt(text, pat, 0)
    ensures RefReplace(text, pat, newStr) == text[..0] + newStr + RefReplace(text[0 + |pat|..], pat, newStr)
  {
    MatchesAtSpec(text, pat, 0);
    assert text[..0] + newStr == newStr;
  }

  /** A text that does not start with the pattern keeps its first character. */
  lemma RefSkip(text: string, pat: string, newStr: string)
    requires |pat| > 0 && |text| > 0 && !OccursAt(text, pat, 0)
    ensures RefReplace(text, pat, newStr) == [text[0]] + RefReplace(text[1..], pat, newStr)
  {
    if |pat| <= |text| {
      MatchesAtSpec(text, pat, 0);
    }
  }

  /** With a non-empty replacement the Java rewrite is exactly the
      left-to-right replacement. */
  lemma {:induction false} ReplaceAllIsLeftToRight(text: string, pat: string, newStr: string)
    requires |pat| > 0 && |newStr| > 0
    ensures ReplaceAll(text, pat, newStr) == RefReplace(text, pat, newStr)
    decreases |text|
  {
    if !Occurs(text, pat) {
      RefNoMatch(text, pat, newStr);
    } else {
      var idx := IndexOf(text, pat);
      ReplaceAllSplit(text, pat, newStr, idx);
      RefSplit(text, pat, newStr, idx);
      ReplaceAllIsLeftToRight(text[idx + |pat|..], pat, newStr);
    }
  }

  /** The rewrite with the empty-builder check read as "nothing was found":
      the original text comes back when the pattern does not occur, and
      otherwise every piece is joined as it is, empty or not. */
  function ReplaceAllIntended(text: string, pat: string, newStr: string): (r: string)
    requires |pat| > 0
    ensures !Occurs(text, pat) ==> r == text
    ensures Occurs(text, pat) ==> |r| >= |newStr|
    decreases |text|, 1
  {
    var idx := IndexOf(text, pat);
    if idx < 0 then text else IntendedAt(text, pat, newStr, idx)
  }

  /** The intended step once `indexOf` reported `idx`. */
  function IntendedAt(text: string, pat: string, newStr: string, idx: nat): (r: string)
    requires |pat| > 0 && idx + |pat| <= |text|
    ensures |r| >= |newStr|
    decreases |text|, 0
  {
    ReplaceAllIntended(text[..idx], pat, newStr)
    + newStr
    + ReplaceAllIntended(text[idx + |pat|..], pat, newStr)
  }

  /** The intended rewrite splits at the first occurrence and keeps the text
      before it. */
  lemma IntendedSplit(text: string, pat: string, newStr: string, idx: nat)
    requires |pat| > 0 && FirstOccurrence(text, pat, idx)
    ensures ReplaceAllIntended(text, pat, newStr)
         == text[..idx] + newStr + ReplaceAllIntended(text[idx + |pat|..], pat, newStr)
  {
    IndexOfFirst(text, pat, idx);
    NoOccurrenceBefore(text, pat, idx);
    assert ReplaceAllIntended(text, pat, newStr) == IntendedAt(text, pat, newStr, idx);
  }

  /** The intended rewrite is the left-to-right replacement for every
      replacement string, the empty one included. */
  lemma {:induction false} IntendedIsLeftToRight(text: string, pat: string, newStr: string)
    requires |pat| > 0
    ensures ReplaceAllIntended(text, pat, newStr) == RefReplace(text, pat, newStr)
    decreases |text|
  {
    if !Occurs(text, pat) {
      RefNoMatch(text, pat, newStr);
    } else {
      var idx := IndexOf(text, pat);
      IntendedSplit(text, pat, newStr, idx);
      RefSplit(text, pat, newStr, idx);
      IntendedIsLeftToRight(text[idx + |pat|..], pat, newStr);
    }
  }

  /** As written, deleting every `a` from `aa` leaves one `a`: the last piece
      is rebuilt into an empty builder, which gives back the piece itself. */
  lemma DeletionKeepsLastOccurrence()
    ensures ReplaceAll("aa", "a", "") == "a"
    ensures RefReplace("aa", "a", "") == []
    ensures ReplaceAllIntended("aa", "a", "") == []
  {
    var a := "a";
    assert OccursAt("aa", a, 0);
    IndexOfFirst("aa", a, 0);
    IndexOfFirst(a, a, 0);
    assert "aa"[1..] == a && "aa"[..0] == [] && a[1..] == [] && a[..0] == [];
    ReplaceAllUnfold("aa", a, [], 0);
    ReplaceAllUnfold(a, a, [], 0);
    IntendedIsLeftToRight("aa", a, []);
  }

  /** The multi-pattern rewriters share the empty-builder check: deleting
      every `a` from `aa` with `replaceAllArray` leaves one `a` as well. */
  lemma ArrayDeletionKeepsLastOccurrence()
    ensures ReplaceAllArray("aa", ["a"], [""]) == "a"
  {
    var pats, news := ["a"], [""];
    DeletionSplits();
    FirstMatchSplits("aa", pats, 0, 0);
    FirstMatchSplits("a", pats, 0, 0);
    RewriteUnfold("aa", pats, news, 0, 0);
    RewriteUnfold("a", pats, news, 0, 0);
  }

  /** The splits behind `ArrayDeletionKeepsLastOccurrence`. */
  lemma DeletionSplits()
    ensures SplitsAt("aa", ["a"], 0, 0) && SplitsAt("a", ["a"], 0, 0)
    ensures "aa"[..0] == [] && "aa"[1..] == "a" && "a"[..0] == [] && "a"[1..] == []
  {
    assert "aa"[0..1] == "a";
  }
}
