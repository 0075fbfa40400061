/** Worked cases of the rewriters, each derived from the engine's
    definition: which split it picks, and what it leaves alone. */
module RewriteScenarios {
  import opened PatternScan
  import opened Rewriter

  /** Patterns are tried in array order, not by position: with `b` listed
      before `a`, `ab` is split at `b` first, and `a` is then replaced in the
      piece before it, giving `AB`. */
  lemma TieBreakArrayOrder()
    ensures ReplaceAllArray("ab", ["b", "a"], ["B", "A"]) == "AB"
  {
    var pats, news := ["b", "a"], ["B", "A"];
    TieBreakSplits();
    FirstMatchSplits("ab", pats, 0, 1);
    FirstMatchSplits("a", pats, 1, 0);
    RewriteUnfold("ab", pats, news, 0, 1);
    RewriteUnfold("a", pats, news, 1, 0);
  }

  /** The splits behind `TieBreakArrayOrder`. */
  lemma TieBreakSplits()
    ensures SplitsAt("ab", ["b", "a"], 0, 1) && SplitsAt("a", ["b", "a"], 1, 0)
    ensures "ab"[..1] == "a" && "ab"[2..] == [] && "a"[..0] == [] && "a"[1..] == []
  {
    assert "ab"[0..1][0] != "b"[0];
    assert "a"[0..1][0] != "b"[0];
  }

  /** The split is at the first pattern that occurs even when a later one
      occurs further left: `ab` would match at 0, but `bc` is listed first,
      so the overlapping `ab` is never replaced. */
  lemma FirstListedWins()
    ensures ReplaceAllArray("abc", ["bc", "ab"], ["X", "Y"]) == "aX"
  {
    var pats, news := ["bc", "ab"], ["X", "Y"];
    FirstListedSplits();
    FirstMatchSplits("abc", pats, 0, 1);
    RewriteUnfold("abc", pats, news, 0, 1);
  }

  /** The split behind `FirstListedWins`. */
  lemma FirstListedSplits()
    ensures SplitsAt("abc", ["bc", "ab"], 0, 1) && NoneOccur("a", ["bc", "ab"])
    ensures "abc"[..1] == "a" && "abc"[3..] == []
  {
    assert "abc"[0..2][0] != "bc"[0];
  }

  /** `heightLight` wraps the match and keeps the text around it. */
  lemma HighlightOne()
    ensures Highlight("xay", ["a"], "[", "]") == "x[a]y"
  {
    var pats := ["a"];
    var spans := Wrapped(pats, "[", "]");
    HighlightOneSplits();
    FirstMatchSplits("xay", pats, 0, 1);
    RewriteUnfold("xay", pats, spans, 0, 1);
    assert Highlight("xay", pats, "[", "]") == Rewrite("xay", pats, spans);
  }

  /** The split behind `HighlightOne`. */
  lemma HighlightOneSplits()
    ensures SplitsAt("xay", ["a"], 0, 1) && NoneOccur("x", ["a"]) && NoneOccur("y", ["a"])
    ensures "xay"[..1] == "x" && "xay"[2..] == "y"
    ensures "x" + ("[" + "a" + "]") + "y" == "x[a]y"
  {
    assert "xay"[0..1][0] != "a"[0];
    assert "x"[0..1][0] != "a"[0] && "y"[0..1][0] != "a"[0];
  }

  /** Markers are not searched again: a marker that contains the pattern is
      left as it is. */
  lemma HighlightMarkersNotRescanned()
    ensures Highlight("ab", ["b"], "<b>", "</b>") == "a<b>b</b>"
  {
    var pats := ["b"];
    var spans := Wrapped(pats, "<b>", "</b>");
    MarkerSplits();
    FirstMatchSplits("ab", pats, 0, 1);
    RewriteUnfold("ab", pats, spans, 0, 1);
    assert Rewrite([], pats, spans) == [];
    assert Highlight("ab", pats, "<b>", "</b>") == Rewrite("ab", pats, spans);
  }

  /** The split behind `HighlightMarkersNotRescanned`. */
  lemma MarkerSplits()
    ensures SplitsAt("ab", ["b"], 0, 1) && NoneOccur("a", ["b"])
    ensures "ab"[..1] == "a" && "ab"[2..] == []
    ensures "a" + ("<b>" + "b" + "</b>") + [] == "a<b>b</b>"
  {
    assert "ab"[0..1][0] != "b"[0];
    assert "a"[0..1][0] != "b"[0];
  }
}
