/**
  The string operations of kattis-tools.py: the whitespace stripping done by
  `strip_whitespace` (two `re.sub` calls), `str.replace`, `str.endswith`,
  `str.split(".")[0]` and `str.rsplit(".", 1)[0]`.
*/
module Text {

  /** The `\s` class of Python's `re` on str patterns, which is `str.isspace`:
      the ASCII controls 9..13 and 28..31, space, and the Unicode spaces. */
  predicate IsSpace(c: char) {
    c == ' ' || ('\t' <= c <= '\r') || ('\U{1c}' <= c <= '\U{1f}')
    || c == '\U{85}' || c == '\U{a0}' || c == '\U{1680}'
    || ('\U{2000}' <= c <= '\U{200a}')
    || c == '\U{2028}' || c == '\U{2029}' || c == '\U{202f}' || c == '\U{205f}' || c == '\U{3000}'
  }

  /** Every character of `s` at positions `lo <= k < hi` is whitespace. */
  predicate SpaceBetween(s: string, lo: int, hi: int)
    requires 0 <= lo && hi <= |s|
  {
    forall k :: lo <= k < hi ==> IsSpace(s[k])
  }

  predicate AllSpace(s: string) {
    SpaceBetween(s, 0, |s|)
  }

  /** Neither the first nor the last character is whitespace. */
  predicate IsTrimmed(s: string) {
    s == [] || (!IsSpace(s[0]) && !IsSpace(s[|s| - 1]))
  }

  /** Cutting `s` down to `s[i..j]` removes a whitespace prefix and a
      whitespace suffix and leaves no whitespace at either end. */
  predicate StripsAt(s: string, i: int, j: int) {
    0 <= i <= j <= |s| && SpaceBetween(s, 0, i) && SpaceBetween(s, j, |s|) && IsTrimmed(s[i..j])
  }

  /** `r` is a contiguous piece of `s` that stripping at both ends gives. */
  ghost predicate StrippedFrom(s: string, r: string) {
    exists i, j :: StripsAt(s, i, j) && r == s[i..j]
  }

  /** `re.sub(r"^\s*", "", s)`: `^` anchors at position 0 only. */
  function TrimStart(s: string): string
    decreases |s|
  {
    if s != [] && IsSpace(s[0]) then TrimStart(s[1..]) else s
  }

  lemma {:induction false} TrimStartSpec(s: string)
    ensures var r := TrimStart(s);
      |r| <= |s| && r == s[|s| - |r|..] && SpaceBetween(s, 0, |s| - |r|) && (r != [] ==> !IsSpace(r[0]))
    decreases |s|
  {
    if s != [] && IsSpace(s[0]) {
      TrimStartSpec(s[1..]);
      var r := TrimStart(s);
      assert forall k :: 1 <= k < |s| - |r| ==> s[k] == s[1..][k - 1];
    }
  }

  /** `re.sub(r"\s*$", "", s)`: the leftmost match starts where the trailing
      whitespace run starts, and greedy `\s*` then reaches the end of `s`. */
  function TrimEnd(s: string): string
    decreases |s|
  {
    if s != [] && IsSpace(s[|s| - 1]) then TrimEnd(s[..|s| - 1]) else s
  }

  lemma {:induction false} TrimEndSpec(s: string)
    ensures var r := TrimEnd(s);
      |r| <= |s| && r == s[..|r|] && SpaceBetween(s, |r|, |s|) && (r != [] ==> !IsSpace(r[|r| - 1]))
    decreases |s|
  {
    if s != [] && IsSpace(s[|s| - 1]) {
      TrimEndSpec(s[..|s| - 1]);
      var r := TrimEnd(s);
      assert forall k :: |r| <= k < |s| - 1 ==> s[k] == s[..|s| - 1][k];
    }
  }

  /** `strip_whitespace`: both substitutions, in the order of the source. */
  function StripWhitespace(s: string): string {
    TrimEnd(TrimStart(s))
  }

  lemma StripWhitespaceSpec(s: string)
    ensures StrippedFrom(s, StripWhitespace(s))
  {
    var t := TrimStart(s);
    var r := TrimEnd(t);
    TrimStartSpec(s);
    TrimEndSpec(t);
    var i := |s| - |t|;
    assert r == s[i..i + |r|];
    assert forall k :: i + |r| <= k < |s| ==> s[k] == t[k - i];
    assert StripsAt(s, i, i + |r|);
  }

  /** A non-empty stripped piece lies inside every other way of stripping. */
  lemma StripsAtWithin(s: string, i: int, j: int, i2: int, j2: int)
    requires StripsAt(s, i, j) && StripsAt(s, i2, j2)
    ensures i < j ==> i2 <= i && j <= j2
  {
    if i < j {
      assert s[i..j][0] == s[i] && s[i..j][j - i - 1] == s[j - 1];
    }
  }

  /** There is only one way to strip a string: `StrippedFrom` determines its result. */
  lemma StrippedUnique(s: string, r1: string, r2: string)
    requires StrippedFrom(s, r1) && StrippedFrom(s, r2)
    ensures r1 == r2
  {
    var i1, j1 :| StripsAt(s, i1, j1) && r1 == s[i1..j1];
    var i2, j2 :| StripsAt(s, i2, j2) && r2 == s[i2..j2];
    StripsAtWithin(s, i1, j1, i2, j2);
    StripsAtWithin(s, i2, j2, i1, j1);
  }

  /** Stripping is idempotent. */
  lemma StripIdempotent(s: string)
    ensures StripWhitespace(StripWhitespace(s)) == StripWhitespace(s)
  {
    var r := StripWhitespace(s);
    StripWhitespaceSpec(s);
    var i, j :| StripsAt(s, i, j) && r == s[i..j];
    assert StripsAt(r, 0, |r|) && r[0..|r|] == r;
    StripWhitespaceSpec(r);
    StrippedUnique(r, r, StripWhitespace(r));
  }

  /** Stripping yields "" exactly on all-whitespace input. */
  lemma StripEmptyIff(s: string)
    ensures StripWhitespace(s) == [] <==> AllSpace(s)
  {
    var r := StripWhitespace(s);
    StripWhitespaceSpec(s);
    var i, j :| StripsAt(s, i, j) && r == s[i..j];
    if AllSpace(s) {
      assert StripsAt(s, 0, 0) && s[0..0] == [];
      StrippedUnique(s, [], r);
    } else {
      var k :| 0 <= k < |s| && !IsSpace(s[k]);
      assert i <= k < j;
    }
  }

  lemma StripsAtSurrounded(w1: string, s: string, w2: string, i: int, j: int)
    requires AllSpace(w1) && AllSpace(w2) && StripsAt(s, i, j)
    ensures StripsAt(w1 + s + w2, |w1| + i, |w1| + j)
    ensures (w1 + s + w2)[|w1| + i..|w1| + j] == s[i..j]
  {
    var t := w1 + s + w2;
    assert forall k :: 0 <= k < |s| ==> t[|w1| + k] == s[k];
    assert t[|w1| + i..|w1| + j] == s[i..j];
    assert SpaceBetween(t, 0, |w1| + i) by {
      forall k | 0 <= k < |w1| + i ensures IsSpace(t[k]) {
        if k >= |w1| { assert t[k] == s[k - |w1|]; } else { assert t[k] == w1[k]; }
      }
    }
    assert SpaceBetween(t, |w1| + j, |t|) by {
      forall k | |w1| + j <= k < |t| ensures IsSpace(t[k]) {
        if k < |w1| + |s| { assert t[k] == s[k - |w1|]; } else { assert t[k] == w2[k - |w1| - |s|]; }
      }
    }
  }

  /** Whitespace added around a string does not change what stripping gives. */
  lemma StripIgnoresSurroundingSpace(w1: string, s: string, w2: string)
    requires AllSpace(w1) && AllSpace(w2)
    ensures StripWhitespace(w1 + s + w2) == StripWhitespace(s)
  {
    var r := StripWhitespace(s);
    StripWhitespaceSpec(s);
    var i, j :| StripsAt(s, i, j) && r == s[i..j];
    StripsAtSurrounded(w1, s, w2, i, j);
    StripWhitespaceSpec(w1 + s + w2);
    StrippedUnique(w1 + s + w2, r, StripWhitespace(w1 + s + w2));
  }

  predicate StartsWith(s: string, prefix: string) {
    |prefix| <= |s| && s[..|prefix|] == prefix
  }

  /** `str.endswith`; every string ends with "". */
  predicate EndsWith(s: string, suffix: string) {
    |suffix| <= |s| && s[|s| - |suffix|..] == suffix
  }

  predicate OccursAt(s: string, pat: string, i: int) {
    0 <= i <= |s| - |pat| && s[i..i + |pat|] == pat
  }

  /** `pat` occurs in `s` at some position. */
  ghost predicate Contains(s: string, pat: string) {
    exists i :: OccursAt(s, pat, i)
  }

  /** `s.replace(pat, val)`: scanning left to right, every non-overlapping
      occurrence of `pat` becomes `val`; an empty `pat` puts `val` before
      every character and at the end. */
  function Replace(s: string, pat: string, val: string): string
    decreases |s|
  {
    if pat == [] then
      if s == [] then val else val + [s[0]] + Replace(s[1..], pat, val)
    else if |s| < |pat| then s
    else if s[..|pat|] == pat then val + Replace(s[|pat|..], pat, val)
    else [s[0]] + Replace(s[1..], pat, val)
  }

  /** Replacing a pattern that does not occur changes nothing. */
  lemma {:induction false} ReplaceAbsent(s: string, pat: string, val: string)
    requires pat != [] && !Contains(s, pat)
    ensures Replace(s, pat, val) == s
    decreases |s|
  {
    if |s| >= |pat| {
      assert !OccursAt(s, pat, 0);
      assert !Contains(s[1..], pat) by {
        forall i | 0 <= i <= |s[1..]| - |pat| ensures !OccursAt(s[1..], pat, i) {
          assert s[1..][i..i + |pat|] == s[i + 1..i + 1 + |pat|];
          assert !OccursAt(s, pat, i + 1);
        }
      }
      ReplaceAbsent(s[1..], pat, val);
    }
  }

  /** Where the pattern does not start, the first character is copied through. */
  lemma ReplaceHead(s: string, pat: string, val: string)
    requires pat != [] && s != [] && !StartsWith(s, pat)
    ensures Replace(s, pat, val) == [s[0]] + Replace(s[1..], pat, val)
  {
    if |s| < |pat| {
      assert Replace(s[1..], pat, val) == s[1..];
      assert [s[0]] + s[1..] == s;
    }
  }

  /** Where `a + b` does not start with the pattern, the first character of `a` is copied through. */
  lemma ReplaceHeadOf(a: string, b: string, pat: string, val: string)
    requires pat != [] && a != [] && !StartsWith(a + b, pat)
    ensures Replace(a + b, pat, val) == [a[0]] + Replace(a[1..] + b, pat, val)
  {
    var s := a + b;
    assert s[0] == a[0] && s[1..] == a[1..] + b;
    ReplaceHead(s, pat, val);
  }

  /** Where `s` starts with the pattern, the value replaces that occurrence. */
  lemma ReplaceAtStart(pat: string, b: string, val: string)
    requires pat != []
    ensures Replace(pat + b, pat, val) == val + Replace(b, pat, val)
  {
    assert (pat + b)[..|pat|] == pat;
    assert (pat + b)[|pat|..] == b;
  }

  lemma NotStartsWithOther(a: string, b: string, pat: string)
    requires pat != [] && a != [] && a[0] != pat[0]
    ensures !StartsWith(a + b, pat)
  {
    assert |pat| <= |a + b| ==> (a + b)[..|pat|][0] == a[0];
  }

  /** Text that lacks the pattern's first character is copied through. */
  lemma {:induction false} ReplaceSkipsPlain(a: string, b: string, pat: string, val: string)
    requires pat != [] && pat[0] !in a
    ensures Replace(a + b, pat, val) == a + Replace(b, pat, val)
    decreases |a|
  {
    if a != [] {
      var a' := a[1..];
      NotStartsWithOther(a, b, pat);
      ReplaceHeadOf(a, b, pat, val);
      ReplaceSkipsPlain(a', b, pat, val);
      SeqCons(a, Replace(b, pat, val));
    } else {
      assert a + b == b;
    }
  }

  lemma SeqCons(a: string, r: string)
    requires a != []
    ensures [a[0]] + (a[1..] + r) == a + r
  {
    assert a == [a[0]] + a[1..];
  }

  /** `s` with every `c` taken out, the reference for `replace(c, "")`. */
  function Without(s: string, c: char): (r: string)
    ensures c !in r
    ensures |r| <= |s|
    ensures forall x :: x in r ==> x in s
  {
    if s == [] then [] else (if s[0] == c then [] else [s[0]]) + Without(s[1..], c)
  }

  lemma {:induction false} ReplaceCharByNothing(s: string, c: char)
    ensures Replace(s, [c], []) == Without(s, c)
    decreases |s|
  {
    if s != [] {
      ReplaceCharByNothing(s[1..], c);
    }
  }

  /** `name.split(".")[0]`: the text up to the first dot, or all of `name`. */
  function BeforeFirstDot(name: string): (r: string)
    ensures r == name || (|r| < |name| && name[|r|] == '.')
    ensures StartsWith(name, r) && '.' !in r
  {
    if name == [] then []
    else if name[0] == '.' then []
    else [name[0]] + BeforeFirstDot(name[1..])
  }

  /** `name.rsplit(".", 1)[0]`: the text before the last dot, or all of `name`. */
  function BeforeLastDot(name: string): (r: string)
    ensures StartsWith(name, r)
    ensures r == name ==> '.' !in name
    ensures r != name ==> name[|r|] == '.' && '.' !in name[|r| + 1..]
    decreases |name|
  {
    if name == [] then []
    else if name[|name| - 1] == '.' then name[..|name| - 1]
    else
      var r := BeforeLastDot(name[..|name| - 1]);
      if r == name[..|name| - 1] then name
      else
        assert name[|r| + 1..] == name[..|name| - 1][|r| + 1..] + [name[|name| - 1]];
        r
  }

}
