/** `subString`: cutting a string down to a budget of encoded bytes.

    The platform charset is a parameter: `byteLen(c)` is the number of bytes
    the charset writes for the character `c`, at least one for every
    character. A string's encoded length is the sum over its characters. */
module ByteTruncation {
  import opened Blank

  /** The encoded length of `s`, summed from the end so that it grows one
      character at a time as a prefix is read. */
  function ByteSum(s: string, byteLen: char -> nat): nat
    decreases |s|
  {
    if |s| == 0 then 0 else ByteSum(s[..|s| - 1], byteLen) + byteLen(s[|s| - 1])
  }

  /** Reading one more character adds that character's bytes. */
  lemma ByteSumStep(s: string, i: nat, byteLen: char -> nat)
    requires i < |s|
    ensures ByteSum(s[..i + 1], byteLen) == ByteSum(s[..i], byteLen) + byteLen(s[i])
  {
    assert s[..i + 1][..i] == s[..i];
  }

  /** Every character costs at least one byte, so a text takes at least as
      many bytes as it has characters. */
  lemma {:induction false} ByteSumAtLeastLength(s: string, byteLen: char -> nat)
    requires forall c :: byteLen(c) >= 1
    ensures ByteSum(s, byteLen) >= |s|
    decreases |s|
  {
    if |s| > 0 {
      ByteSumAtLeastLength(s[..|s| - 1], byteLen);
    }
  }

  /** A longer prefix never takes fewer bytes. */
  lemma {:induction false} ByteSumMonotone(s: string, i: nat, j: nat, byteLen: char -> nat)
    requires i <= j <= |s|
    ensures ByteSum(s[..i], byteLen) <= ByteSum(s[..j], byteLen)
    decreases j - i
  {
    if i < j {
      ByteSumStep(s, j - 1, byteLen);
      ByteSumMonotone(s, i, j - 1, byteLen);
    }
  }

  /** `r` is the longest prefix of `s` whose encoding fits in `budget` bytes. */
  predicate LongestFit(s: string, budget: int, r: string, byteLen: char -> nat) {
    && |r| <= |s| && r == s[..|r|]
    && ByteSum(r, byteLen) <= budget
    && forall k :: |r| < k <= |s| ==> ByteSum(s[..k], byteLen) > budget
  }

  /** The longest fit is unique, so `SubString`'s contract fixes its answer. */
  lemma LongestFitUnique(s: string, budget: int, r1: string, r2: string, byteLen: char -> nat)
    requires LongestFit(s, budget, r1, byteLen) && LongestFit(s, budget, r2, byteLen)
    ensures r1 == r2
  {
  }

  /** A character is never cut in half: when the first character alone takes
      more bytes than the budget, the result is empty. */
  lemma WideFirstCharacter(s: string, budget: int, r: string, byteLen: char -> nat)
    requires |s| > 0 && byteLen(s[0]) > budget
    requires LongestFit(s, budget, r, byteLen)
    ensures r == []
  {
    assert s[..1][..0] == [];
    if |r| > 0 {
      ByteSumMonotone(s, 1, |r|, byteLen);
    }
  }

  /** The loop of `subString`: copies characters while the running byte count
      stays within `budget`, and stops at the first one that would exceed it. */
  method ReadWithin(t: string, budget: int, byteLen: char -> nat) returns (r: string)
    requires budget >= 0
    ensures |r| <= |t| && r == t[..|r|]
    ensures ByteSum(r, byteLen) <= budget
    ensures |r| < |t| ==> ByteSum(t[..|r| + 1], byteLen) > budget
  {
    var readLen := 0;
    var sb := [];
    var i := 0;
    while i < |t|
      invariant 0 <= i <= |t|
      invariant sb == t[..i]
      invariant readLen == ByteSum(t[..i], byteLen) <= budget
    {
      var c := t[i];
      ByteSumStep(t, i, byteLen);
      readLen := readLen + byteLen(c);
      if readLen > budget {
        return sb;
      }
      sb := sb + [c];
      i := i + 1;
    }
    assert t[..i] == t;
    return sb;
  }

  /** `subString(str, byteLength)`: blank input gives the empty string;
      otherwise the result is the longest prefix of `str` whose encoding
      takes at most `byteLength` bytes, which is `str` itself when it fits.
      A negative budget makes the Java code throw unless the input is blank. */
  method SubString(s: string, byteLength: int, byteLen: char -> nat) returns (r: string)
    requires forall c :: byteLen(c) >= 1
    requires byteLength >= 0 || IsBlankText(s)
    ensures IsBlankText(s) ==> r == []
    ensures !IsBlankText(s) ==> LongestFit(s, byteLength, r, byteLen)
    ensures !IsBlankText(s) && ByteSum(s, byteLen) <= byteLength ==> r == s
  {
    if IsBlankText(s) {
      return [];
    }
    if ByteSum(s, byteLen) <= byteLength {
      assert s[..|s|] == s;
      return s;
    }
    var t := s;
    if |s| >= byteLength {
      t := s[..byteLength];
    }
    r := ReadWithin(t, byteLength, byteLen);
    FitOfCut(s, t, byteLength, r, byteLen);
  }

  /** What the loop finds in the cut text `t` is the longest fit in `s`:
      past the cut every prefix has more characters, hence more bytes, than
      the budget. */
  lemma FitOfCut(s: string, t: string, budget: int, r: string, byteLen: char -> nat)
    requires forall c :: byteLen(c) >= 1
    requires budget >= 0 && ByteSum(s, byteLen) > budget
    requires t == s || (|s| >= budget && t == s[..budget])
    requires |r| <= |t| && r == t[..|r|] && ByteSum(r, byteLen) <= budget
    requires |r| < |t| ==> ByteSum(t[..|r| + 1], byteLen) > budget
    ensures LongestFit(s, budget, r, byteLen)
  {
    assert r == s[..|r|];
    forall k | |r| < k <= |s|
      ensures ByteSum(s[..k], byteLen) > budget
    {
      if |r| < |t| {
        assert t[..|r| + 1] == s[..|r| + 1];
        ByteSumMonotone(s, |r| + 1, k, byteLen);
      } else {
        ByteSumAtLeastLength(s[..k], byteLen);
      }
    }
  }
}
