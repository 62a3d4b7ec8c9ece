/** ASCII stand-ins for the two JavaScript string operations the search uses:
    `toLowerCase` (restricted to the letters A-Z) and `includes`. */
module Text {

  predicate IsUpper(ch: char) {
    'A' <= ch <= 'Z'
  }

  predicate IsLower(ch: char) {
    'a' <= ch <= 'z'
  }

  /** Distance between an upper-case ASCII letter and its lower-case form. */
  const CaseOffset: int := 'a' as int - 'A' as int

  /** Lower-cases an ASCII letter; every other character is unchanged. */
  function ToLower(ch: char): (r: char)
    ensures !IsUpper(r)
    ensures IsUpper(ch) ==> IsLower(r) && r as int == ch as int + CaseOffset
    ensures !IsUpper(ch) ==> r == ch
  {
    if IsUpper(ch) then (ch as int + CaseOffset) as char else ch
  }

  /** Upper-cases an ASCII letter; every other character is unchanged. Used
      only to talk about re-cased queries. */
  function ToUpper(ch: char): (r: char)
    ensures !IsLower(r)
    ensures IsLower(ch) ==> IsUpper(r) && ToLower(r) == ch
    ensures !IsLower(ch) ==> r == ch
  {
    if IsLower(ch) then (ch as int - CaseOffset) as char else ch
  }

  /** String lower-casing, character by character. */
  function Lower(s: string): (r: string)
    ensures |r| == |s|
    ensures forall i :: 0 <= i < |s| ==> r[i] == ToLower(s[i])
  {
    if |s| == 0 then [] else [ToLower(s[0])] + Lower(s[1..])
  }

  /** String upper-casing, character by character. */
  function Upper(s: string): (r: string)
    ensures |r| == |s|
    ensures forall i :: 0 <= i < |s| ==> r[i] == ToUpper(s[i])
  {
    if |s| == 0 then [] else [ToUpper(s[0])] + Upper(s[1..])
  }

  /** No character of `s` is an upper-case ASCII letter. */
  predicate IsLowerCase(s: string) {
    forall i :: 0 <= i < |s| ==> !IsUpper(s[i])
  }

  /** `a` and `b` spell the same text up to the case of ASCII letters. */
  predicate SameIgnoringCase(a: string, b: string) {
    && |a| == |b|
    && forall i :: 0 <= i < |a| ==> ToLower(a[i]) == ToLower(b[i])
  }

  /** `t` occurs in `s` starting at index `i`. */
  ghost predicate OccursAt(s: string, t: string, i: int) {
    0 <= i && i + |t| <= |s| && s[i..i + |t|] == t
  }

  /** When `t` is not a prefix of the non-empty `s`, its occurrences in `s`
      are those in `s[1..]`, shifted by one. */
  lemma OccursInTail(s: string, t: string)
    requires |t| <= |s| && s[..|t|] != t
    ensures |s| > 0
    ensures (exists i :: OccursAt(s, t, i)) <==> (exists j :: OccursAt(s[1..], t, j))
  {
    forall i | OccursAt(s, t, i)
      ensures OccursAt(s[1..], t, i - 1)
    {
      assert i != 0;
      assert s[1..][i - 1..i - 1 + |t|] == s[i..i + |t|];
    }
    forall j | OccursAt(s[1..], t, j)
      ensures OccursAt(s, t, j + 1)
    {
      assert s[1..][j..j + |t|] == s[j + 1..j + 1 + |t|];
    }
  }

  /** `s.includes(t)`: scans `s` from the left for an occurrence of `t`, and
      succeeds exactly when `t` occurs at some index of `s`. */
  function Contains(s: string, t: string): (b: bool)
    ensures b <==> exists i :: OccursAt(s, t, i)
    decreases |s|
  {
    if |t| > |s| then
      assert forall i :: !OccursAt(s, t, i);
      false
    else if s[..|t|] == t then
      assert OccursAt(s, t, 0);
      true
    else
      OccursInTail(s, t);
      Contains(s[1..], t)
  }

  /** Every string includes the empty string. */
  lemma ContainsEmpty(s: string)
    ensures Contains(s, [])
  {
  }

  /** Inclusion is transitive: an occurrence inside an occurrence is an
      occurrence. */
  lemma ContainsTransitive(s: string, t: string, u: string)
    requires Contains(s, t) && Contains(t, u)
    ensures Contains(s, u)
  {
    var i :| OccursAt(s, t, i);
    var j :| OccursAt(t, u, j);
    forall k | 0 <= k < |u|
      ensures s[i + j + k] == u[k]
    {
      assert u[k] == t[j + k] == s[i..i + |t|][j + k];
    }
    assert s[i + j..i + j + |u|] == u;
    assert OccursAt(s, u, i + j);
  }

  /** Lower-casing both sides keeps an occurrence. */
  lemma LowerPreservesContains(s: string, t: string)
    requires Contains(s, t)
    ensures Contains(Lower(s), Lower(t))
  {
    var i :| OccursAt(s, t, i);
    LowerOccurs(s, t, i);
  }

  /** Lower-casing both sides keeps an occurrence at the same index. */
  lemma LowerOccurs(s: string, t: string, i: int)
    requires OccursAt(s, t, i)
    ensures OccursAt(Lower(s), Lower(t), i)
  {
    var ls, lt := Lower(s), Lower(t);
    forall k | 0 <= k < |t|
      ensures ls[i + k] == lt[k]
    {
      assert s[i + k] == s[i..i + |t|][k] == t[k];
    }
    assert ls[i..i + |t|] == lt;
  }

  /** Two strings lower-case to the same string exactly when they differ at
      most in the case of ASCII letters. */
  lemma SameIgnoringCaseIffSameLower(a: string, b: string)
    ensures SameIgnoringCase(a, b) <==> Lower(a) == Lower(b)
  {
    if Lower(a) == Lower(b) {
      assert forall i :: 0 <= i < |a| ==> ToLower(a[i]) == Lower(a)[i];
    }
  }

  /** Upper-casing is one re-casing: it does not change the lower-cased form. */
  lemma UpperIsRecasing(s: string)
    ensures SameIgnoringCase(Upper(s), s)
  {
  }
}
