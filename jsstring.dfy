/**
 * The three ECMAScript string operations that the field cleanup in index.js
 * is built from: String.prototype.trim, String.prototype.indexOf and
 * String.prototype.replace with a string pattern and an empty replacement
 * (which removes the FIRST occurrence only).
 */
module JsString {
  import opened Wrappers

  /** The code points `trim` strips: ECMAScript WhiteSpace (including every
      Unicode space separator) and LineTerminator. */
  predicate IsWhitespace(c: char) {
    || c == '\t' || c == '\n' || c == '\U{000B}' || c == '\U{000C}' || c == '\r'
    || c == ' ' || c == '\U{00A0}' || c == '\U{1680}'
    || ('\U{2000}' <= c <= '\U{200A}')
    || c == '\U{2028}' || c == '\U{2029}' || c == '\U{202F}' || c == '\U{205F}'
    || c == '\U{3000}' || c == '\U{FEFF}'
  }

  predicate AllWhitespace(s: string) {
    forall i :: 0 <= i < |s| ==> IsWhitespace(s[i])
  }

  /** Neither the first nor the last character is whitespace. */
  predicate IsTrimmed(s: string) {
    s == [] || (!IsWhitespace(s[0]) && !IsWhitespace(s[|s| - 1]))
  }

  /** `s.trim()`: strips whitespace from both ends until neither end is
      whitespace. */
  function Trim(s: string): (r: string)
    ensures IsTrimmed(r)
    ensures |r| <= |s|
    decreases |s|
  {
    if |s| > 0 && IsWhitespace(s[0]) then Trim(s[1..])
    else if |s| > 0 && IsWhitespace(s[|s| - 1]) then Trim(s[..|s| - 1])
    else s
  }

  /** Reference characterisation of `trim`: surrounding a trimmed string with
      any whitespace whatsoever and trimming gives the string back. */
  lemma {:induction false} TrimOfPadded(p: string, t: string, q: string)
    requires AllWhitespace(p) && AllWhitespace(q)
    requires IsTrimmed(t)
    ensures Trim(p + t + q) == t
    decreases |p|
  {
    var s := p + t + q;
    if p != [] {
      assert s[0] == p[0];
      assert s[1..] == p[1..] + t + q;
      TrimOfPadded(p[1..], t, q);
    } else {
      assert s == t + q;
      TrimOfRightPadded(t, q);
    }
  }

  /** The case without leading whitespace. */
  lemma {:induction false} TrimOfRightPadded(t: string, q: string)
    requires AllWhitespace(q)
    requires IsTrimmed(t)
    ensures Trim(t + q) == t
    decreases |q|
  {
    var s := t + q;
    if q != [] && t == [] {
      assert s == q;
      assert s[1..] == [] + q[1..];
      TrimOfRightPadded([], q[1..]);
    } else if q != [] {
      assert s[0] == t[0];
      assert s[|s| - 1] == q[|q| - 1];
      assert s[..|s| - 1] == t + q[..|q| - 1];
      TrimOfRightPadded(t, q[..|q| - 1]);
    } else {
      assert s == t;
    }
  }

  /** Trimming twice is trimming once. */
  lemma TrimIdempotent(s: string)
    ensures Trim(Trim(s)) == Trim(s)
  {
    var t := Trim(s);
    assert [] + t + [] == t;
    TrimOfPadded([], t, []);
  }

  /** `pat` occurs in `s` starting at index `i`. */
  predicate OccursAt(s: string, pat: string, i: nat) {
    i + |pat| <= |s| && s[i..i + |pat|] == pat
  }

  /** The first index at or after `from` where `pat` occurs. */
  function IndexFrom(s: string, pat: string, from: nat): (r: Option<nat>)
    requires from <= |s|
    ensures r.Some? ==> from <= r.value && OccursAt(s, pat, r.value)
    ensures r.Some? ==> forall j: nat :: from <= j < r.value ==> !OccursAt(s, pat, j)
    ensures r.None? ==> forall j: nat :: from <= j ==> !OccursAt(s, pat, j)
    decreases |s| - from
  {
    if OccursAt(s, pat, from) then Some(from)
    else if from == |s| then None
    else IndexFrom(s, pat, from + 1)
  }

  /** `s.indexOf(pat)`, with `None` for JavaScript's -1: the index of the
      first occurrence of `pat`, if there is one. */
  function IndexOf(s: string, pat: string): (r: Option<nat>)
    ensures r.Some? ==> OccursAt(s, pat, r.value)
    ensures r.Some? ==> forall j: nat :: j < r.value ==> !OccursAt(s, pat, j)
    ensures r.None? ==> forall j: nat :: !OccursAt(s, pat, j)
  {
    IndexFrom(s, pat, 0)
  }

  /** `s.replace(pat, '')`: scanning from the left, the first occurrence of
      `pat` is cut out and the rest is left as it is. (An empty `pat` occurs
      at 0 and removing it leaves `s`, as in JavaScript.) */
  function RemoveFirst(s: string, pat: string): string {
    if |s| < |pat| then s
    else if s[..|pat|] == pat then s[|pat|..]
    else [s[0]] + RemoveFirst(s[1..], pat)
  }

  /** Dropping the first character shifts every occurrence down by one. */
  lemma OccursShift(s: string, pat: string, j: nat)
    requires |s| > 0
    ensures OccursAt(s[1..], pat, j) <==> OccursAt(s, pat, j + 1)
  {
    if j + 1 + |pat| <= |s| {
      assert s[1..][j..j + |pat|] == s[j + 1..j + 1 + |pat|];
    }
  }

  /** A string without `pat` is returned unchanged. */
  lemma {:induction false} RemoveFirstAbsent(s: string, pat: string)
    requires forall j: nat :: !OccursAt(s, pat, j)
    ensures RemoveFirst(s, pat) == s
  {
    if |s| >= |pat| {
      assert !OccursAt(s, pat, 0);
      forall j: nat
        ensures !OccursAt(s[1..], pat, j)
      {
        OccursShift(s, pat, j);
      }
      RemoveFirstAbsent(s[1..], pat);
    }
  }

  /** Otherwise exactly one copy of `pat` disappears, the first: putting it
      back at the index of the first occurrence restores `s`. */
  lemma {:induction false} RemoveFirstRestores(s: string, pat: string, i: nat)
    requires OccursAt(s, pat, i)
    requires forall j: nat :: j < i ==> !OccursAt(s, pat, j)
    ensures var r := RemoveFirst(s, pat);
            |r| == |s| - |pat| && i <= |r| && s == r[..i] + pat + r[i..]
  {
    if i == 0 {
      assert s[..|pat|] == s[0..0 + |pat|];
      assert s == s[..|pat|] + s[|pat|..];
    } else {
      assert !OccursAt(s, pat, 0);
      assert s[..|pat|] != pat by { assert s[..|pat|] == s[0..0 + |pat|]; }
      OccursShift(s, pat, i - 1);
      forall j: nat | j < i - 1
        ensures !OccursAt(s[1..], pat, j)
      {
        OccursShift(s, pat, j);
      }
      RemoveFirstRestores(s[1..], pat, i - 1);
      RestoreCons(s, RemoveFirst(s[1..], pat), pat, i);
    }
  }

  /** The inductive step above: putting back the first character. */
  lemma RestoreCons(s: string, r: string, pat: string, i: nat)
    requires 0 < i <= |r| + 1 && |s| > 0
    requires s[1..] == r[..i - 1] + pat + r[i - 1..]
    ensures ([s[0]] + r)[..i] == [s[0]] + r[..i - 1]
    ensures s == ([s[0]] + r)[..i] + pat + ([s[0]] + r)[i..]
  {
    var r' := [s[0]] + r;
    assert r'[..i] == [s[0]] + r[..i - 1];
    assert r'[i..] == r[i - 1..];
    assert s == [s[0]] + s[1..];
  }

  /** `replace` in terms of `indexOf`: the string unchanged when `pat` does
      not occur, otherwise the string with the `|pat|` characters at the
      first occurrence cut out. */
  lemma RemoveFirstIsSplice(s: string, pat: string)
    ensures IndexOf(s, pat).None? ==> RemoveFirst(s, pat) == s
    ensures IndexOf(s, pat).Some? ==>
              var i := IndexOf(s, pat).value;
              i + |pat| <= |s| && RemoveFirst(s, pat) == s[..i] + s[i + |pat|..]
  {
    match IndexOf(s, pat)
    case None =>
      RemoveFirstAbsent(s, pat);
    case Some(i) =>
      RemoveFirstRestores(s, pat, i);
      var r := RemoveFirst(s, pat);
      assert s[..i] == r[..i];
      assert s[i + |pat|..] == r[i..];
  }
}
