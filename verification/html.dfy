/** The HTML entity codec: `encodeHTML`, a linear scan that escapes the four
    reserved characters, and `decodeHTML`, one run of the rewriting engine
    over a fixed table of the four entities. */
module HtmlEntities {
  import opened PatternScan
  import opened Blank
  import opened Rewriter
  import opened Seqs

  /** The characters `encodeHTML` escapes. */
  predicate Reserved(c: char) {
    c == '<' || c == '>' || c == '&' || c == '"'
  }

  /** The `switch` of `encodeHTML`: the entity written for a reserved character. */
  function Entity(c: char): string
    requires Reserved(c)
  {
    if c == '<' then "&lt;"
    else if c == '>' then "&gt;"
    else if c == '&' then "&amp;"
    else "&quot;"
  }

  /** What `encodeHTML` emits for one character. */
  function EscapeChar(c: char): string {
    if Reserved(c) then Entity(c) else [c]
  }

  /** The per-character escaping that `encodeHTML` computes. */
  function Escape(s: string): string {
    if |s| == 0 then [] else EscapeChar(s[0]) + Escape(s[1..])
  }

  /** Escaping works piece by piece. */
  lemma {:induction false} EscapeConcat(a: string, b: string)
    ensures Escape(a + b) == Escape(a) + Escape(b)
    decreases |a|
  {
    if |a| > 0 {
      assert (a + b)[0] == a[0];
      assert (a + b)[1..] == a[1..] + b;
      EscapeConcat(a[1..], b);
    } else {
      assert a + b == b;
    }
  }

  /** A text without reserved characters escapes to itself. */
  lemma {:induction false} EscapePlain(s: string)
    requires forall i :: 0 <= i < |s| ==> !Reserved(s[i])
    ensures Escape(s) == s
    decreases |s|
  {
    if |s| > 0 {
      EscapePlain(s[1..]);
    }
  }

  /** Escaping a text one character longer appends that character's escape. */
  lemma EscapeSnoc(s: string, c: char)
    ensures Escape(s + [c]) == Escape(s) + EscapeChar(c)
  {
    EscapeConcat(s, [c]);
    EscapeSingle(c);
  }

  /** The scan's step at a reserved character `html[i]` after a run
      `html[next..i]` of plain ones: the run is copied, then the entity. */
  lemma EscapeRunThenReserved(html: string, next: nat, i: nat)
    requires next <= i < |html| && Reserved(html[i])
    requires forall j :: next <= j < i ==> !Reserved(html[j])
    ensures Escape(html[..i + 1]) == Escape(html[..next]) + html[next..i] + Entity(html[i])
  {
    PlainSlice(html, next, i);
    EscapePlain(html[next..i]);
    EscapeConcat(html[..next], html[next..i]);
    EscapeSnoc(html[..next] + html[next..i], html[i]);
    PrefixParts(html, next, i);
  }

  /** A run of plain characters, seen as a text of its own. */
  lemma PlainSlice(html: string, lo: nat, hi: nat)
    requires lo <= hi <= |html|
    requires forall j :: lo <= j < hi ==> !Reserved(html[j])
    ensures forall j :: 0 <= j < |html[lo..hi]| ==> !Reserved(html[lo..hi][j])
  {
  }

  /** The scan's last step: the plain run `html[next..]` is copied as is. */
  lemma EscapeRunToEnd(html: string, next: nat)
    requires next <= |html|
    requires forall j :: next <= j < |html| ==> !Reserved(html[j])
    ensures Escape(html) == Escape(html[..next]) + html[next..]
  {
    PlainSuffix(html, next);
    EscapePlain(html[next..]);
    EscapeConcat(html[..next], html[next..]);
    SplitPrefix(html, next);
  }

  /** A plain suffix, seen as a text of its own. */
  lemma PlainSuffix(html: string, lo: nat)
    requires lo <= |html|
    requires forall j :: lo <= j < |html| ==> !Reserved(html[j])
    ensures forall j :: 0 <= j < |html[lo..]| ==> !Reserved(html[lo..][j])
  {
  }

  /** The scan of `encodeHTML` over a non-blank text: it looks for the first
      reserved character, then copies the runs between reserved characters in
      one piece each, writing the entity for each reserved one. */
  method EscapeScan(html: string) returns (r: string)
    ensures r == Escape(html)
  {
    var ln := |html|;
    var i := 0;
    while i < ln
      invariant 0 <= i <= ln
      invariant forall j :: 0 <= j < i ==> !Reserved(html[j])
    {
      var c := html[i];
      if Reserved(c) {
        EscapeRunThenReserved(html, 0, i);
        r := EscapeRest(html, i + 1, html[..i] + Entity(c));
        return;
      }
      i := i + 1;
    }
    EscapeRunToEnd(html, 0);
    return html;
  }

  /** The inner loop of `encodeHTML`, entered after the first reserved
      character with `b` holding the escape of `html[..start]`. */
  method EscapeRest(html: string, start: nat, b: string) returns (r: string)
    requires start <= |html| && b == Escape(html[..start])
    ensures r == Escape(html)
  {
    var ln := |html|;
    var i: nat := start;
    var next: nat := start;
    r := b;
    while i < ln
      invariant next <= i <= ln
      invariant r == Escape(html[..next])
      invariant forall j :: next <= j < i ==> !Reserved(html[j])
    {
      var c := html[i];
      if Reserved(c) {
        EscapeRunThenReserved(html, next, i);
        r := r + html[next..i] + Entity(c);
        next := i + 1;
      }
      i := i + 1;
    }
    EscapeRunToEnd(html, next);
    if next < ln {
      r := r + html[next..];
    }
  }

  /** `encodeHTML`: blank input gives the empty string; otherwise every
      reserved character is replaced by its entity and every other character
      is copied. */
  method EncodeHtml(html: string) returns (r: string)
    ensures IsBlankText(html) ==> r == []
    ensures !IsBlankText(html) ==> r == Escape(html)
  {
    if IsBlankText(html) {
      return [];
    }
    r := EscapeScan(html);
  }

  /** The table `decodeHTML` passes to `replaceAllArray`, in its order. */
  const EntityNames: seq<string> := ["&amp;", "&lt;", "&gt;", "&quot;"]
  const EntityChars: seq<string> := ["&", "<", ">", "\""]

  /** `decodeHTML`: blank input gives the empty string; otherwise one run of
      `replaceAllArray` over the entity table. */
  function DecodeHtml(html: string): (r: string)
    ensures |r| == 0 <==> IsBlankText(html)
  {
    if IsBlankText(html) then []
    else
      EntityTable();
      ReplaceAllArray(html, EntityNames, EntityChars)
  }

  /** The decoding table suits `replaceAllArray`: no empty pattern, and a
      replacement for every pattern. */
  lemma EntityTable()
    ensures NonEmptyPatterns(EntityNames) && |EntityChars| == |EntityNames|
  {
  }

  /** Decoding gives the empty string for blank input, and a non-blank text
      without `&` back unchanged, since every entity starts with `&`. */
  lemma DecodePlain(html: string)
    ensures IsBlankText(html) ==> DecodeHtml(html) == []
    ensures !IsBlankText(html) && (forall i :: 0 <= i < |html| ==> html[i] != '&') ==> DecodeHtml(html) == html
  {
    NoAmpersandNoEntity(html);
  }

  /** Every entity starts with `&`, so a text without `&` contains none. */
  lemma NoAmpersandNoEntity(s: string)
    ensures (forall i :: 0 <= i < |s| ==> s[i] != '&') ==> NoneOccur(s, EntityNames)
  {
    if forall i :: 0 <= i < |s| ==> s[i] != '&' {
      forall n, k | 0 <= n < |EntityNames| && 0 <= k <= |s|
        ensures !OccursAt(s, EntityNames[n], k)
      {
        var name := EntityNames[n];
        assert name[0] == '&';
        if k + |name| <= |s| {
          assert s[k..k + |name|][0] == s[k];
        }
      }
    }
  }

  /** The number of a reserved character's entity in the decoding table. */
  function EntityIndex(c: char): (n: nat)
    requires Reserved(c)
    ensures n < |EntityNames| && EntityNames[n] == Entity(c) && EntityChars[n] == [c]
  {
    if c == '&' then 0 else if c == '<' then 1 else if c == '>' then 2 else 3
  }

  /** Every row of the decoding table starts with `&` and has a second
      character. */
  lemma EntityShape(n: nat)
    requires n < |EntityNames|
    ensures |EntityNames[n]| >= 2 && EntityNames[n][0] == '&'
  {
  }

  /** The entity of a reserved character contains no `&` after its first
      character, and its second character tells it apart from every other
      row of the table. Together with `EntityShape` this makes decoding
      unambiguous. */
  lemma EntityDistinct(n: nat, c: char)
    requires n < |EntityNames| && Reserved(c)
    ensures |Entity(c)| >= 2 && forall k :: 1 <= k < |Entity(c)| ==> Entity(c)[k] != '&'
    ensures EntityNames[n][1] == Entity(c)[1] ==> n == EntityIndex(c)
  {
  }

  /** Escaping splits around any one character. */
  lemma EscapeSplitAt(s: string, j: nat)
    requires j < |s|
    ensures Escape(s) == Escape(s[..j]) + EscapeChar(s[j]) + Escape(s[j + 1..])
  {
    SplitSeq(s, j);
    EscapeAround(s[..j], s[j], s[j + 1..]);
  }

  /** `EscapeConcat` around one character. */
  lemma EscapeAround(a: string, c: char, b: string)
    ensures Escape(a + [c] + b) == Escape(a) + EscapeChar(c) + Escape(b)
  {
    ConcatAssoc(a, [c], b);
    EscapeConcat(a, [c] + b);
    EscapeConcat([c], b);
    EscapeSingle(c);
  }

  /** A single character escapes to its own escape. */
  lemma EscapeSingle(c: char)
    ensures Escape([c]) == EscapeChar(c)
  {
    assert Escape([c]) == EscapeChar(c) + Escape([]);
  }

  /** Escaping a text with a first character. */
  lemma EscapeCons(c: char, s: string)
    ensures Escape([c] + s) == EscapeChar(c) + Escape(s)
  {
    EscapeConcat([c], s);
    EscapeSingle(c);
  }

  /** A reserved character `s[j]` shows up in the escaped text as its entity,
      right after the escape of `s[..j]`. */
  lemma EscapeAt(s: string, j: nat)
    requires j < |s|
    ensures Reserved(s[j]) ==> OccursAt(Escape(s), Entity(s[j]), |Escape(s[..j])|)
    ensures Reserved(s[j]) ==> Occurs(Escape(s), EntityNames[EntityIndex(s[j])])
  {
    EscapeSplitAt(s, j);
    if Reserved(s[j]) {
      var k := |Escape(s[..j])|;
      var e := Entity(s[j]);
      assert Escape(s)[k..k + |e|] == e;
      assert OccursAt(Escape(s), EntityNames[EntityIndex(s[j])], k);
    }
  }

  /** Every occurrence of an entity in an escaped text is one the escaping
      wrote: it sits exactly where a reserved character of the original
      went, and it is that character's entity. */
  lemma {:induction false} EntityAligned(s: string, n: nat, k: nat) returns (j: nat)
    requires n < |EntityNames| && OccursAt(Escape(s), EntityNames[n], k)
    ensures j < |s| && Reserved(s[j]) && EntityIndex(s[j]) == n
    ensures k == |Escape(s[..j])|
    decreases |s|
  {
    EntityShape(n);
    assert |s| > 0;
    var e := EscapeChar(s[0]);
    if k >= |e| {
      EntityInTail(s, n, k);
      var j' := EntityAligned(s[1..], n, k - |e|);
      j := j' + 1;
      EscapePrefixCons(s, j');
    } else {
      EntityAtHead(s, n, k);
      j := 0;
      assert s[..j] == [];
    }
  }

  /** An entity occurrence past the escape of the first character is an
      occurrence in the escape of the rest. */
  lemma EntityInTail(s: string, n: nat, k: nat)
    requires |s| > 0 && k >= |EscapeChar(s[0])|
    requires n < |EntityNames| && OccursAt(Escape(s), EntityNames[n], k)
    ensures OccursAt(Escape(s[1..]), EntityNames[n], k - |EscapeChar(s[0])|)
  {
    EscapeHead(s);
    OccursShift(EscapeChar(s[0]), Escape(s[1..]), Escape(s), EntityNames[n], k);
  }

  /** `Escape` unfolded once. */
  lemma EscapeHead(s: string)
    requires |s| > 0
    ensures Escape(s) == EscapeChar(s[0]) + Escape(s[1..])
  {
  }

  /** The escape of a prefix is the first character's escape followed by the
      escape of a prefix of the rest. */
  lemma EscapePrefixCons(s: string, j: nat)
    requires j < |s|
    ensures Escape(s[..j + 1]) == EscapeChar(s[0]) + Escape(s[1..][..j])
  {
    PrefixCons(s, j);
    EscapeCons(s[0], s[1..][..j]);
  }

  /** An entity occurrence that starts inside the escape of the first
      character is that character's entity, at offset 0. */
  lemma EntityAtHead(s: string, n: nat, k: nat)
    requires |s| > 0 && k < |EscapeChar(s[0])|
    requires n < |EntityNames| && OccursAt(Escape(s), EntityNames[n], k)
    ensures k == 0 && Reserved(s[0]) && EntityIndex(s[0]) == n
  {
    var name := EntityNames[n];
    var e := EscapeChar(s[0]);
    var t := Escape(s);
    EntityShape(n);
    assert t == e + Escape(s[1..]);
    assert t[k..k + |name|][0] == t[k];
    assert e[k] == '&';
    assert Reserved(s[0]);
    EntityDistinct(n, s[0]);
    assert k == 0;
    assert t[k..k + |name|][1] == t[1] == e[1];
  }

  /** Running the decoding table over an escaped text gives the original
      text back, whatever order the engine picks the entities in. */
  lemma {:induction false} RewriteEscaped(s: string)
    ensures Rewrite(Escape(s), EntityNames, EntityChars) == s
    decreases |s|
  {
    EntityTable();
    var t := Escape(s);
    var m := FirstMatch(t, EntityNames);
    if m.None? {
      forall j | 0 <= j < |s|
        ensures !Reserved(s[j])
      {
        EscapeAt(s, j);
      }
      EscapePlain(s);
    } else {
      var n, k := m.value.pattern, m.value.offset;
      var j := EntityAligned(s, n, k);
      EscapeSplitAt(s, j);
      var before, after := Escape(s[..j]), Escape(s[j + 1..]);
      Pieces(before, Entity(s[j]), after);
      RewriteUnfold(t, EntityNames, EntityChars, n, k);
      RewriteEscaped(s[..j]);
      RewriteEscaped(s[j + 1..]);
      SplitSeq(s, j);
    }
  }

  /** Escaping keeps a text non-blank: a character above U+0020 is either
      copied or replaced by an entity starting with `&`. */
  lemma EscapeNotBlank(s: string)
    requires !IsBlankText(s)
    ensures !IsBlankText(Escape(s))
  {
    var i := NotBlankWitness(s);
    var before, e, after := Escape(s[..i]), EscapeChar(s[i]), Escape(s[i + 1..]);
    EscapeSplitAt(s, i);
    EscapeCharHead(s[i]);
    Pieces(before, e, after);
    assert Escape(s)[|before| + 0] == e[0];
    NotBlankAt(Escape(s), |before|);
  }

  /** The escape of a character above U+0020 starts with a character above
      U+0020: the character itself or the `&` of its entity. */
  lemma EscapeCharHead(c: char)
    requires c > ' '
    ensures |EscapeChar(c)| > 0 && EscapeChar(c)[0] > ' '
  {
  }

  /** Decoding undoes encoding on every non-blank text (`EncodeHtml` returns
      `Escape(s)` there). */
  lemma DecodeEncode(s: string)
    requires !IsBlankText(s)
    ensures DecodeHtml(Escape(s)) == s
  {
    EscapeNotBlank(s);
    RewriteEscaped(s);
  }

  /** A blank text has nothing to escape, and decoding it gives "": the round
      trip fails on every non-empty blank text. */
  lemma {:induction false} DecodeEncodeBlank(s: string)
    ensures IsBlankText(s) ==> Escape(s) == s && DecodeHtml(Escape(s)) == []
  {
    if IsBlankText(s) {
      EscapePlain(s);
    }
  }

  /** Decoding is a single pass: the `&` that `&amp;` turns into is not
      combined with the text after it, so `&amp;lt;` decodes to `&lt;` and
      not to `<`. */
  lemma DecodeSinglePass()
    ensures DecodeHtml("&amp;lt;") == "&lt;"
  {
    NotBlankAt("&lt;", 0);
    EscapeAmpLt();
    DecodeEncode("&lt;");
  }

  /** Encoding `&lt;` escapes its `&` only. */
  lemma EscapeAmpLt()
    ensures Escape("&lt;") == "&amp;lt;"
  {
    SinglePassText();
    EscapePlain("lt;");
    EscapeConcat(['&'], "lt;");
    EscapeSingle('&');
  }

  /** How the texts of `EscapeAmpLt` are put together. */
  lemma SinglePassText()
    ensures "&lt;" == ['&'] + "lt;" && "&amp;lt;" == "&amp;" + "lt;"
  {
  }
}
