/** Literal pattern search: Java's `String.indexOf` and the array-order scan
    that every multi-pattern rewriter runs before it splits the text. */
module PatternScan {

  datatype Option<T> = None | Some(value: T)

  /** Pattern number `pattern` of the array found at character `offset`. */
  datatype Match = Match(pattern: nat, offset: nat)

  /** `pat` occurs in `text` starting at character `k`. */
  predicate OccursAt(text: string, pat: string, k: int) {
    0 <= k && k + |pat| <= |text| && text[k..k + |pat|] == pat
  }

  predicate Occurs(text: string, pat: string) {
    exists k :: 0 <= k <= |text| && OccursAt(text, pat, k)
  }

  /** An occurrence in `a + b` past the end of `a` is an occurrence in `b`. */
  lemma OccursShift(a: string, b: string, t: string, pat: string, k: int)
    requires t == a + b && |a| <= k && OccursAt(t, pat, k)
    ensures OccursAt(b, pat, k - |a|)
  {
    var j := k - |a|;
    assert forall i :: j <= i < j + |pat| ==> b[i] == t[i + |a|];
    assert b[j..j + |pat|] == t[k..k + |pat|];
  }

  /** `k` is the offset of the first occurrence of `pat` in `text`. */
  predicate FirstOccurrence(text: string, pat: string, k: int) {
    OccursAt(text, pat, k) && forall j :: 0 <= j < k ==> !OccursAt(text, pat, j)
  }

  /** None of the patterns occurs anywhere in `text`. */
  predicate NoneOccur(text: string, pats: seq<string>) {
    forall j :: 0 <= j < |pats| ==> !Occurs(text, pats[j])
  }

  /** The rewriters require every pattern to be non-empty: an empty pattern is
      "found" at offset 0 and the text after it is the whole text again. */
  predicate NonEmptyPatterns(pats: seq<string>) {
    forall j :: 0 <= j < |pats| ==> |pats[j]| > 0
  }

  /** The split the rewriters make: `pats[i]` is the lowest-numbered pattern
      that occurs anywhere in `text`, and `idx` is its first occurrence. A
      later pattern may well occur further left. */
  predicate SplitsAt(text: string, pats: seq<string>, i: int, idx: int) {
    && 0 <= i < |pats|
    && (forall j :: 0 <= j < i ==> !Occurs(text, pats[j]))
    && FirstOccurrence(text, pats[i], idx)
  }

  /** Character-by-character comparison of `pat` with `text` from offset `k`. */
  function MatchesAt(text: string, pat: string, k: nat): bool
    requires k + |pat| <= |text|
    decreases |pat|
  {
    |pat| == 0 || (text[k] == pat[0] && MatchesAt(text, pat[1..], k + 1))
  }

  /** The comparison succeeds exactly at the occurrences of `pat`. */
  lemma {:induction false} MatchesAtSpec(text: string, pat: string, k: nat)
    requires k + |pat| <= |text|
    ensures MatchesAt(text, pat, k) <==> OccursAt(text, pat, k)
    decreases |pat|
  {
    if |pat| > 0 {
      MatchesAtSpec(text, pat[1..], k + 1);
      assert text[k..k + |pat|] == [text[k]] + text[k + 1..k + 1 + |pat[1..]|];
      assert pat == [pat[0]] + pat[1..];
    }
  }

  /** Searches for `pat` from character `from` onwards. */
  function IndexFrom(text: string, pat: string, from: nat): (r: int)
    requires from <= |text|
    ensures r == -1 || (from <= r && r + |pat| <= |text|)
    decreases |text| - from
  {
    if from + |pat| > |text| then -1
    else if MatchesAt(text, pat, from) then from
    else IndexFrom(text, pat, from + 1)
  }

  /** The search from `from` finds the first occurrence at or after `from`,
      and reports -1 only when there is none. */
  lemma {:induction false} IndexFromSpec(text: string, pat: string, from: nat)
    requires from <= |text|
    ensures var r := IndexFrom(text, pat, from);
            && (r == -1 || (from <= r && OccursAt(text, pat, r)))
            && (r == -1 ==> forall k :: from <= k ==> !OccursAt(text, pat, k))
            && (r >= 0 ==> forall k :: from <= k < r ==> !OccursAt(text, pat, k))
    decreases |text| - from
  {
    if from + |pat| <= |text| {
      MatchesAtSpec(text, pat, from);
      if !MatchesAt(text, pat, from) {
        IndexFromSpec(text, pat, from + 1);
      }
    }
  }

  /** `String.indexOf(String)`: -1 exactly when `pat` does not occur, and
      otherwise the offset of its first occurrence. */
  function IndexOf(text: string, pat: string): (r: int)
    ensures r == -1 || (0 <= r && r + |pat| <= |text|)
    ensures r == -1 <==> !Occurs(text, pat)
    ensures r != -1 ==> FirstOccurrence(text, pat, r)
  {
    IndexFromSpec(text, pat, 0);
    IndexFrom(text, pat, 0)
  }

  /** An empty pattern is found at offset 0 of every text. */
  lemma IndexOfEmpty(text: string, pat: string)
    requires |pat| == 0
    ensures IndexOf(text, pat) == 0
  {
    assert OccursAt(text, pat, 0);
  }

  /** `indexOf` reports any first occurrence it is shown. */
  lemma IndexOfFirst(text: string, pat: string, idx: int)
    requires FirstOccurrence(text, pat, idx)
    ensures IndexOf(text, pat) == idx
  {
  }

  /** The `for` loop over the pattern array, from pattern `i` on: the first
      pattern whose `indexOf` is non-negative wins. Its contract only bounds
      the answer; `FirstMatchFromSpec` says which answer it is. */
  function FirstMatchFrom(text: string, pats: seq<string>, i: nat): (m: Option<Match>)
    requires i <= |pats|
    ensures m.Some? ==> i <= m.value.pattern < |pats| && m.value.offset + |pats[m.value.pattern]| <= |text|
    decreases |pats| - i
  {
    if i == |pats| then None
    else
      var idx := IndexOf(text, pats[i]);
      if idx >= 0 then Some(Match(i, idx)) else FirstMatchFrom(text, pats, i + 1)
  }

  /** The array-order scan: the split point of every multi-pattern rewriter.
      It finds nothing exactly when no pattern occurs, and otherwise the
      split `SplitsAt` describes. */
  function FirstMatch(text: string, pats: seq<string>): (m: Option<Match>)
    ensures m.Some? ==> m.value.pattern < |pats| && m.value.offset + |pats[m.value.pattern]| <= |text|
    ensures m.None? <==> NoneOccur(text, pats)
    ensures m.Some? ==> SplitsAt(text, pats, m.value.pattern, m.value.offset)
  {
    FirstMatchFromSpec(text, pats, 0);
    FirstMatchFrom(text, pats, 0)
  }

  /** The scan from pattern `i` on reports nothing exactly when none of those
      patterns occurs, and otherwise reports the first pattern that occurs,
      at its first occurrence. */
  lemma {:induction false} FirstMatchFromSpec(text: string, pats: seq<string>, i: nat)
    requires i <= |pats|
    ensures FirstMatchFrom(text, pats, i).None? <==> forall j :: i <= j < |pats| ==> !Occurs(text, pats[j])
    ensures FirstMatchFrom(text, pats, i).Some? ==>
              var m := FirstMatchFrom(text, pats, i).value;
              && (forall j :: i <= j < m.pattern ==> !Occurs(text, pats[j]))
              && FirstOccurrence(text, pats[m.pattern], m.offset)
    decreases |pats| - i
  {
    if i < |pats| {
      if IndexOf(text, pats[i]) < 0 {
        FirstMatchFromSpec(text, pats, i + 1);
      }
    }
  }

  /** The scan reports `Match(i, idx)` exactly when `SplitsAt(text, pats, i, idx)`:
      the lowest-numbered occurring pattern at its first occurrence. */
  lemma FirstMatchSplits(text: string, pats: seq<string>, i: nat, idx: nat)
    ensures FirstMatch(text, pats) == Some(Match(i, idx)) <==> SplitsAt(text, pats, i, idx)
  {
    FirstMatchFromSpec(text, pats, 0);
  }
}
