/** Character-level scanning shared by the command extractor and the CDATA
    cleaner: Python's notion of whitespace, literal search for a tag, and
    `str.strip()`. */
module Text {

  datatype Option<+T> = None | Some(value: T)

  /** Python's whitespace test. `\s` in a `str` pattern and `str.strip()`
      with no argument both use it: the code points of bidirectional class
      WS, B or S, or of general category Zs. */
  predicate IsSpace(c: char) {
    var n := c as int;
    || (9 <= n <= 13) || (28 <= n <= 32) || n == 0x85 || n == 0xA0
    || n == 0x1680 || (0x2000 <= n <= 0x200A) || n == 0x2028 || n == 0x2029
    || n == 0x202F || n == 0x205F || n == 0x3000
  }

  predicate AllSpace(s: string) {
    forall k :: 0 <= k < |s| ==> IsSpace(s[k])
  }

  /** `s` has no whitespace at either end: the shape `strip()` leaves. */
  predicate Stripped(s: string) {
    s == [] || (!IsSpace(s[0]) && !IsSpace(s[|s| - 1]))
  }

  /** The literal `pat` starts at index `i` of `s`. */
  predicate OccursAt(s: string, pat: string, i: nat) {
    i + |pat| <= |s| && forall m :: 0 <= m < |pat| ==> s[i + m] == pat[m]
  }

  ghost predicate Contains(s: string, pat: string) {
    exists k: nat :: OccursAt(s, pat, k)
  }

  /** The first index at or after `i` where `pat` occurs in `s`, the way a
      regular-expression search tries start positions from left to right. */
  function FindFrom(s: string, pat: string, i: nat): (r: Option<nat>)
    decreases |s| - i
    ensures r.Some? ==> i <= r.value && OccursAt(s, pat, r.value)
    ensures forall k: nat :: i <= k && (r.None? || k < r.value) ==> !OccursAt(s, pat, k)
  {
    if i + |pat| > |s| then None
    else if OccursAt(s, pat, i) then Some(i)
    else FindFrom(s, pat, i + 1)
  }

  /** An occurrence at `j` with none in `[i, j)` is what FindFrom finds. */
  lemma FindFromUnique(s: string, pat: string, i: nat, j: nat)
    requires i <= j && OccursAt(s, pat, j)
    requires forall k: nat :: i <= k < j ==> !OccursAt(s, pat, k)
    ensures FindFrom(s, pat, i) == Some(j)
  {
  }

  /** Text appended after a found occurrence does not change the search. */
  lemma FindFromExtend(a: string, b: string, pat: string, i: nat)
    requires FindFrom(a, pat, i).Some?
    ensures FindFrom(a + b, pat, i) == FindFrom(a, pat, i)
  {
    var j := FindFrom(a, pat, i).value;
    forall k: nat | i <= k < j
      ensures !OccursAt(a + b, pat, k)
    {
      assert !OccursAt(a, pat, k);
    }
    FindFromUnique(a + b, pat, i, j);
  }

  /** Occurrences in `t` are occurrences in `a + t`, shifted by `|a|`. */
  lemma OccursAtShift(a: string, t: string, pat: string, k: nat)
    ensures OccursAt(a + t, pat, |a| + k) <==> OccursAt(t, pat, k)
  {
  }

  /** An occurrence inside a slice is an occurrence in the whole string. */
  lemma OccursInSlice(s: string, lo: nat, hi: nat, pat: string, k: nat)
    requires lo <= hi <= |s| && OccursAt(s[lo..hi], pat, k)
    ensures OccursAt(s, pat, lo + k) && lo + k + |pat| <= hi
  {
    forall m | 0 <= m < |pat|
      ensures s[lo + k + m] == pat[m]
    {
      assert s[lo..hi][k + m] == pat[m];
    }
  }

  /** A search that starts inside `t` only sees `t`. */
  lemma {:induction false} FindFromShift(a: string, t: string, pat: string, k: nat)
    decreases |t| - k
    ensures FindFrom(t, pat, k).None? ==> FindFrom(a + t, pat, |a| + k).None?
    ensures FindFrom(t, pat, k).Some? ==>
              FindFrom(a + t, pat, |a| + k) == Some(|a| + FindFrom(t, pat, k).value)
  {
    if k + |pat| <= |t| && !OccursAt(t, pat, k) {
      FindFromSkip(a, t, pat, k);
      FindFromShift(a, t, pat, k + 1);
    } else {
      FindFromHit(a, t, pat, k);
    }
  }

  /** One step of the search past a non-occurrence, in `t` and in `a + t`. */
  lemma FindFromSkip(a: string, t: string, pat: string, k: nat)
    requires k + |pat| <= |t| && !OccursAt(t, pat, k)
    ensures FindFrom(a + t, pat, |a| + k) == FindFrom(a + t, pat, |a| + (k + 1))
    ensures FindFrom(t, pat, k) == FindFrom(t, pat, k + 1)
  {
    OccursAtShift(a, t, pat, k);
    assert |a| + (k + 1) == |a| + k + 1;
  }

  /** The search ends at once in `t`, and at the same place in `a + t`. */
  lemma FindFromHit(a: string, t: string, pat: string, k: nat)
    requires k + |pat| > |t| || OccursAt(t, pat, k)
    ensures FindFrom(t, pat, k).None? ==> FindFrom(a + t, pat, |a| + k).None?
    ensures FindFrom(t, pat, k).Some? ==>
              FindFrom(a + t, pat, |a| + k) == Some(|a| + FindFrom(t, pat, k).value)
  {
    if k + |pat| <= |t| {
      OccursAtShift(a, t, pat, k);
    }
  }

  /** A string without the tag's first character holds no occurrence of it. */
  lemma AbsentFirstChar(s: string, pat: string)
    requires |pat| > 0 && pat[0] !in s
    ensures !Contains(s, pat)
  {
    forall k: nat | k + |pat| <= |s|
      ensures !OccursAt(s, pat, k)
    {
      assert s[k + 0] in s;
    }
  }

  lemma SliceOfAppend(a: string, b: string, lo: nat, hi: nat)
    requires lo <= hi <= |a|
    ensures (a + b)[lo..hi] == a[lo..hi]
  {
  }

  lemma SliceSplit(s: string, a: nat, b: nat, c: nat, d: nat)
    requires a <= b <= c <= d <= |s|
    ensures s[a..d] == s[a..b] + s[b..c] + s[c..d]
  {
  }

  /** Number of whitespace characters at the start of `s`. */
  function LeadingSpace(s: string): (n: nat)
    ensures n <= |s|
    ensures forall k :: 0 <= k < n ==> IsSpace(s[k])
    ensures n < |s| ==> !IsSpace(s[n])
  {
    if |s| > 0 && IsSpace(s[0]) then 1 + LeadingSpace(s[1..]) else 0
  }

  /** Number of whitespace characters at the end of `s`. */
  function TrailingSpace(s: string): (n: nat)
    ensures n <= |s|
    ensures forall k :: |s| - n <= k < |s| ==> IsSpace(s[k])
    ensures n < |s| ==> !IsSpace(s[|s| - 1 - n])
  {
    if |s| > 0 && IsSpace(s[|s| - 1]) then 1 + TrailingSpace(s[..|s| - 1]) else 0
  }

  /** Python's `s.strip()`: leading whitespace is removed, then trailing. */
  function Strip(s: string): (r: string)
    ensures Stripped(r) && |r| <= |s|
  {
    var t := s[LeadingSpace(s)..];
    t[..|t| - TrailingSpace(t)]
  }

  /** Strip cuts only whitespace, and only at the ends: what it keeps is a
      slice of `s` with nothing but whitespace on either side. */
  lemma StripKeepsMiddle(s: string)
    ensures exists a: nat :: a + |Strip(s)| <= |s| && s[a..a + |Strip(s)|] == Strip(s)
                            && AllSpace(s[..a]) && AllSpace(s[a + |Strip(s)|..])
  {
    var a := LeadingSpace(s);
    var t := s[a..];
    var n := |t| - TrailingSpace(t);
    var r := Strip(s);
    assert r == t[..n];
    SliceOfSuffix(s, a, n);
    SpaceRunsAreSpace(s, t);
    assert a + |r| <= |s| && s[a..a + |r|] == r && AllSpace(s[..a]) && AllSpace(s[a + |r|..]);
  }

  /** What LeadingSpace and TrailingSpace count is whitespace. */
  lemma SpaceRunsAreSpace(s: string, t: string)
    ensures AllSpace(s[..LeadingSpace(s)])
    ensures AllSpace(t[|t| - TrailingSpace(t)..])
  {
  }

  /** Slicing a suffix is slicing the whole string further on. */
  lemma SliceOfSuffix(s: string, a: nat, n: nat)
    requires a + n <= |s|
    ensures s[a..][..n] == s[a..a + n]
    ensures s[a..][n..] == s[a + n..]
  {
  }

  /** Strip has exactly one answer: whatever sits between whitespace-only
      ends and itself has no whitespace at its ends. */
  lemma StripUnique(a: string, r: string, b: string)
    requires AllSpace(a) && AllSpace(b) && Stripped(r)
    ensures Strip(a + r + b) == r
  {
    var s := a + r + b;
    forall k | 0 <= k < |a|
      ensures IsSpace(s[k])
    {
      assert s[k] == a[k];
    }
    forall k | |a| + |r| <= k < |s|
      ensures IsSpace(s[k])
    {
      assert s[k] == b[k - |a| - |r|];
    }
    if r == [] {
      LeadingSpaceIs(s, |s|);
      assert s[|s|..] == [];
    } else {
      assert s[|a|] == r[0];
      LeadingSpaceIs(s, |a|);
      var t := s[|a|..];
      assert t == r + b;
      assert t[|t| - 1 - |b|] == r[|r| - 1];
      TrailingSpaceIs(t, |b|);
      assert t[..|t| - |b|] == r;
    }
  }

  /** A whitespace run of length `n` followed by the end or by a
      non-whitespace character is what LeadingSpace counts. */
  lemma LeadingSpaceIs(s: string, n: nat)
    requires n <= |s| && forall k :: 0 <= k < n ==> IsSpace(s[k])
    requires n < |s| ==> !IsSpace(s[n])
    ensures LeadingSpace(s) == n
  {
  }

  /** The same at the end of `t`, for TrailingSpace. */
  lemma TrailingSpaceIs(t: string, m: nat)
    requires m <= |t| && forall k :: |t| - m <= k < |t| ==> IsSpace(t[k])
    requires m < |t| ==> !IsSpace(t[|t| - 1 - m])
    ensures TrailingSpace(t) == m
  {
  }

  /** Index form of StripUnique: whitespace runs `[a, b)` and `[c, d)`
      around a part that does not begin or end with whitespace. */
  lemma StripBetweenRuns(s: string, a: nat, b: nat, c: nat, d: nat)
    requires a <= b <= c <= d <= |s|
    requires forall k :: a <= k < b ==> IsSpace(s[k])
    requires forall k :: c <= k < d ==> IsSpace(s[k])
    requires b < c ==> !IsSpace(s[b]) && !IsSpace(s[c - 1])
    ensures Strip(s[a..d]) == s[b..c]
  {
    SliceSplit(s, a, b, c, d);
    forall k | 0 <= k < b - a
      ensures IsSpace(s[a..b][k])
    {
      assert s[a..b][k] == s[a + k];
    }
    forall k | 0 <= k < d - c
      ensures IsSpace(s[c..d][k])
    {
      assert s[c..d][k] == s[c + k];
    }
    assert b < c ==> s[b..c][0] == s[b] && s[b..c][c - b - 1] == s[c - 1];
    StripUnique(s[a..b], s[b..c], s[c..d]);
  }

  lemma StripOfStripped(s: string)
    requires Stripped(s)
    ensures Strip(s) == s
  {
    StripUnique([], s, []);
    assert [] + s + [] == s;
  }

  /** Stripping twice is stripping once. */
  lemma StripIdempotent(s: string)
    ensures Strip(Strip(s)) == Strip(s)
  {
    StripOfStripped(Strip(s));
  }

  lemma StripAllSpace(s: string)
    requires AllSpace(s)
    ensures Strip(s) == []
  {
    StripUnique(s, [], []);
    assert s + [] + [] == s;
  }
}
