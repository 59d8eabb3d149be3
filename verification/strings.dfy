/** Plain substring search on strings, the ground the metadata regex and the
    thumbnail rewrite are built on. */
module Strings {
  import opened Common

  /** `pat` occurs in `s` starting at index `i`. */
  predicate StartsAt(s: string, i: nat, pat: string) {
    i + |pat| <= |s| && s[i..i + |pat|] == pat
  }

  /** `s` ends with `suffix` (what the regex anchor `$` tests, without the `m` flag). */
  predicate EndsWith(s: string, suffix: string) {
    |suffix| <= |s| && s[|s| - |suffix|..] == suffix
  }

  /** `pat` occurs somewhere in `s`. */
  predicate Contains(s: string, pat: string) {
    exists i: nat | i <= |s| :: StartsAt(s, i, pat)
  }

  /** The first index at or after `from` where `pat` occurs, if any. */
  function FindFrom(s: string, pat: string, from: nat): (r: Option<nat>)
    ensures r.Some? ==> from <= r.value && StartsAt(s, r.value, pat)
    ensures r.Some? ==> forall j: nat :: from <= j < r.value ==> !StartsAt(s, j, pat)
    ensures r.None? ==> forall j: nat :: from <= j ==> !StartsAt(s, j, pat)
    decreases |s| - from
  {
    if from + |pat| > |s| then None
    else if s[from..from + |pat|] == pat then Some(from)
    else FindFrom(s, pat, from + 1)
  }

  /** `i` is the first index where `pat` occurs in `s`. */
  predicate FirstAt(s: string, pat: string, i: nat) {
    StartsAt(s, i, pat) && forall j: nat :: j < i ==> !StartsAt(s, j, pat)
  }

  /** The search from 0 finds exactly the first occurrence. */
  lemma FindFromFirst(s: string, pat: string, i: nat)
    requires FirstAt(s, pat, i)
    ensures FindFrom(s, pat, 0) == Some(i)
  {
    var k := FindFrom(s, pat, 0);
    assert k.Some?;
    assert !(k.value < i);
  }

  /** A pattern that occurs has a first occurrence. */
  lemma FirstOccurrence(s: string, pat: string) returns (i: nat)
    requires Contains(s, pat)
    ensures FirstAt(s, pat, i)
  {
    var k: nat :| k <= |s| && StartsAt(s, k, pat);
    var found := FindFrom(s, pat, 0);
    assert found.Some?;
    i := found.value;
  }

  /** `s` with the FIRST occurrence of `pat` replaced by `rep`, or `s` itself when
      `pat` does not occur (`String.prototype.replace` with a string pattern and
      a replacement without `$`, which JavaScript would expand). */
  function ReplaceFirst(s: string, pat: string, rep: string): (r: string)
    ensures !Contains(s, pat) ==> r == s
    ensures Contains(s, pat) ==>
      exists i: nat | FirstAt(s, pat, i) :: r == s[..i] + rep + s[i + |pat|..]
  {
    match FindFrom(s, pat, 0)
    case None => s
    case Some(i) =>
      assert FirstAt(s, pat, i);
      s[..i] + rep + s[i + |pat|..]
  }

  /** `s` with `ins` inserted right after the first occurrence of `pat`, or
      `s` itself when `pat` does not occur. */
  function InsertAfterFirst(s: string, pat: string, ins: string): (r: string)
    ensures !Contains(s, pat) ==> r == s
    ensures Contains(s, pat) ==>
      exists i: nat | FirstAt(s, pat, i) :: r == s[..i + |pat|] + ins + s[i + |pat|..]
  {
    match FindFrom(s, pat, 0)
    case None => s
    case Some(i) =>
      assert FirstAt(s, pat, i);
      s[..i + |pat|] + ins + s[i + |pat|..]
  }

  /** The insertion at a known first occurrence. */
  lemma InsertAfterFirstAt(s: string, pat: string, ins: string, i: nat)
    requires FirstAt(s, pat, i)
    ensures InsertAfterFirst(s, pat, ins) == s[..i + |pat|] + ins + s[i + |pat|..]
  {
    FindFromFirst(s, pat, i);
  }

  /** The replacement at a known first occurrence. */
  lemma ReplaceFirstAt(s: string, pat: string, rep: string, i: nat)
    requires FirstAt(s, pat, i)
    ensures ReplaceFirst(s, pat, rep) == s[..i] + rep + s[i + |pat|..]
  {
    FindFromFirst(s, pat, i);
  }

  /** Inserting after the first occurrence is `s.replace(pat, pat + ins)`
      when `pat + ins` has no `$`. */
  lemma InsertAfterFirstIsReplace(s: string, pat: string, ins: string)
    ensures InsertAfterFirst(s, pat, ins) == ReplaceFirst(s, pat, pat + ins)
  {
    if Contains(s, pat) {
      var i := FirstOccurrence(s, pat);
      InsertAfterFirstAt(s, pat, ins, i);
      ReplaceFirstAt(s, pat, pat + ins, i);
      var head, rest := s[..i], s[i + |pat|..];
      assert s[..i + |pat|] == head + pat;
      assert (head + pat) + ins == head + (pat + ins);
    }
  }

  /** An occurrence of a pattern without `c` cannot overlap an occurrence of `c`:
      a suffix free of `c` that ends `x + [c] + tail` lies entirely inside `tail`. */
  lemma {:induction false} EndsWithAcrossSeparator(x: string, c: char, tail: string, suffix: string)
    requires c !in suffix
    ensures EndsWith(x + [c] + tail, suffix) <==> EndsWith(tail, suffix)
  {
    var s := x + [c] + tail;
    assert s[|x|] == c;
    assert |s| == |x| + 1 + |tail|;
    if EndsWith(s, suffix) {
      if |suffix| > |tail| {
        assert false;
      }
      assert s[|s| - |suffix|..] == tail[|tail| - |suffix|..];
    }
    if EndsWith(tail, suffix) {
      assert s[|s| - |suffix|..] == tail[|tail| - |suffix|..];
    }
  }

  /** The same, with the separator taken as the last character of `x`. */
  lemma {:induction false} EndsWithPastSeparator(x: string, tail: string, suffix: string)
    requires 0 < |x| && x[|x| - 1] !in suffix
    ensures EndsWith(x + tail, suffix) <==> EndsWith(tail, suffix)
  {
    var c := x[|x| - 1];
    assert x + tail == x[..|x| - 1] + [c] + tail;
    EndsWithAcrossSeparator(x[..|x| - 1], c, tail, suffix);
  }

  /** A string ending with a non-empty `suffix` ends with the suffix's last character. */
  lemma LastCharOfSuffix(s: string, suffix: string)
    requires 0 < |suffix| && EndsWith(s, suffix)
    ensures s[|s| - 1] == suffix[|suffix| - 1]
  {
    assert s[|s| - |suffix|..][|suffix| - 1] == s[|s| - 1];
  }
}
