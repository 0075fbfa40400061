/** Blankness and length predicates of the string toolkit: Java's `trim`,
    `isBlank`, `isBlanks` and `checkLength`. */
module Blank {

  /** A Java `Object` argument as far as `isBlank` can tell it apart: the null
      reference, a `String`, or an object of any other class. */
  datatype Value = Null | Text(chars: string) | Other

  /** A character `trim` may strip from either end: code at most U+0020. */
  predicate IsTrimmed(c: char) {
    c <= ' '
  }

  /** `r` sits in `s` at offset `k`, and everything of `s` before and after
      it is trimmable. */
  predicate TrimsTo(s: string, k: int, r: string) {
    && 0 <= k && k + |r| <= |s| && s[k..k + |r|] == r
    && (forall i :: 0 <= i < k ==> IsTrimmed(s[i]))
    && (forall i :: k + |r| <= i < |s| ==> IsTrimmed(s[i]))
  }

  /** The first loop of `trim`: from `st`, skips trimmable characters. */
  function SkipLeading(s: string, st: nat): (k: nat)
    requires st <= |s|
    ensures st <= k <= |s|
    ensures forall i :: st <= i < k ==> IsTrimmed(s[i])
    ensures k == |s| || !IsTrimmed(s[k])
    decreases |s| - st
  {
    if st < |s| && IsTrimmed(s[st]) then SkipLeading(s, st + 1) else st
  }

  /** The second loop of `trim`: moves the end `len` back over trimmable
      characters, never past `st`. */
  function SkipTrailing(s: string, st: nat, len: nat): (k: nat)
    requires st <= len <= |s|
    ensures st <= k <= len
    ensures forall i :: k <= i < len ==> IsTrimmed(s[i])
    ensures k == st || !IsTrimmed(s[k - 1])
    decreases len
  {
    if st < len && IsTrimmed(s[len - 1]) then SkipTrailing(s, st, len - 1) else len
  }

  /** `String.trim`: the text between the leading and the trailing runs of
      characters at most U+0020. */
  function Trim(s: string): (r: string)
    ensures exists k :: TrimsTo(s, k, r)
    ensures r == [] || (!IsTrimmed(r[0]) && !IsTrimmed(r[|r| - 1]))
    ensures |r| == 0 <==> IsBlankText(s)
  {
    var st := SkipLeading(s, 0);
    var len := SkipTrailing(s, st, |s|);
    TrimsToNothing(s, st, len);
    s[st..len]
  }

  /** The cut `s[st..len]` of `trim` is empty exactly when all of `s` is
      trimmable. */
  lemma TrimsToNothing(s: string, st: nat, len: nat)
    requires st <= len <= |s|
    requires forall i :: 0 <= i < st ==> IsTrimmed(s[i])
    requires forall i :: len <= i < |s| ==> IsTrimmed(s[i])
    requires st == |s| || !IsTrimmed(s[st])
    ensures TrimsTo(s, st, s[st..len])
    ensures st == len <==> IsBlankText(s)
  {
  }

  /** `isBlank(Object)`: null, or a string that trims to nothing. Objects that
      are not strings are never blank. */
  function IsBlank(v: Value): (b: bool)
    ensures b <==> v.Null? || (v.Text? && IsBlankText(v.chars))
  {
    match v
    case Null => true
    case Text(s) => |Trim(s)| == 0
    case Other => false
  }

  /** The strings `isBlank` accepts (see `IsBlank`): every character is at
      most U+0020, so `trim` leaves nothing. */
  predicate IsBlankText(s: string) {
    forall i :: 0 <= i < |s| ==> IsTrimmed(s[i])
  }

  /** A string with a character above U+0020 is not blank. */
  lemma NotBlankAt(s: string, i: nat)
    requires i < |s| && s[i] > ' '
    ensures !IsBlankText(s)
  {
  }

  /** A string that is not blank has a character above U+0020. */
  lemma NotBlankWitness(s: string) returns (i: nat)
    requires !IsBlankText(s)
    ensures i < |s| && s[i] > ' '
  {
    i :| 0 <= i < |s| && s[i] > ' ';
  }

  /** `isBlanks(Object...)`: true as soon as one argument is blank. */
  method IsBlanks(objs: seq<Value>) returns (r: bool)
    ensures r <==> exists i :: 0 <= i < |objs| && IsBlank(objs[i])
  {
    var i := 0;
    while i < |objs|
      invariant 0 <= i <= |objs|
      invariant forall j :: 0 <= j < i ==> !IsBlank(objs[j])
    {
      if IsBlank(objs[i]) {
        return true;
      }
      i := i + 1;
    }
    return false;
  }

  /** `checkLength`: a blank string never passes; a zero `minLength` leaves only
      the upper bound, and otherwise a zero `maxLength` leaves only the lower
      bound. The length is that of the untrimmed string. */
  function CheckLength(s: string, minLength: int, maxLength: int): (r: bool)
    ensures r <==> && !IsBlankText(s)
                   && minLength <= |s|
                   && (|s| <= maxLength || (maxLength == 0 && minLength != 0))
  {
    if IsBlankText(s) then false
    else
      var len := |s|;
      if minLength == 0 then len <= maxLength
      else if maxLength == 0 then len >= minLength
      else len >= minLength && len <= maxLength
  }
}
