/** `clean_cdata`: every `<![CDATA[ ... ]]>` section is replaced by its inner
    text, scanning left to right as `re.sub` does with the pattern
    `<!\[CDATA\[(.*?)\]\]>` (no DOTALL), and the result is stripped. */
module Cdata {
  import opened Text

  const Opener := "<![CDATA["
  const Closer := "]]>"

  /** The escaped form of `x`; the round-trip lemmas below undo it. */
  function Wrap(x: string): (r: string) {
    Opener + x + Closer
  }

  /** Some character of `s[a..b]` is a line feed, which `.` does not match. */
  predicate NewlineIn(s: string, a: nat, b: nat) {
    exists m :: a <= m < b && m < |s| && s[m] == '\n'
  }

  /** Whether the pattern matches at index `i` of `s` and, if so, where its
      group ends: at the first `]]>` after the opener, unless a line feed
      comes first. MatchAtMeaning states this without reference to the
      search. */
  function MatchAt(s: string, i: nat): (r: Option<nat>)
    ensures r.Some? ==> i + |Opener| <= r.value && r.value + |Closer| <= |s|
  {
    if !OccursAt(s, Opener, i) then None
    else
      match FindFrom(s, Closer, i + |Opener|)
      case None => None
      case Some(j) =>
        if NewlineIn(s, i + |Opener|, j) then None else Some(j)
  }

  /** A match at `i` needs an opener at `i`; the lazy `.*?` stops at the
      first `]]>` after the opener, and `.` does not match a line feed, so a
      line feed before that `]]>` makes the match fail at `i`. */
  lemma MatchAtMeaning(s: string, i: nat)
    ensures MatchAt(s, i).Some? ==>
              && OccursAt(s, Opener, i)
              && OccursAt(s, Closer, MatchAt(s, i).value)
              && !NewlineIn(s, i + |Opener|, MatchAt(s, i).value)
              && forall k: nat :: i + |Opener| <= k < MatchAt(s, i).value ==> !OccursAt(s, Closer, k)
    ensures MatchAt(s, i).None? && OccursAt(s, Opener, i) ==>
              forall j: nat :: i + |Opener| <= j && OccursAt(s, Closer, j) ==>
                NewlineIn(s, i + |Opener|, j)
  {
  }

  /** `re.sub(r'<!\[CDATA\[(.*?)\]\]>', r'\1', s)`. The scan goes left to
      right: where the pattern matches at the front, the match is replaced by
      its group and the scan resumes after the `]]>`, so replaced text is not
      rescanned; otherwise one character is copied. The pattern has no
      anchor and no look-behind, so a match at the front of a suffix is a
      match at that index of the whole text (MatchAtShift). */
  function Sub(s: string): (r: string)
    decreases |s|
    ensures |r| <= |s|
  {
    if s == [] then []
    else
      match MatchAt(s, 0)
      case Some(j) => s[|Opener|..j] + Sub(s[j + |Closer|..])
      case None => [s[0]] + Sub(s[1..])
  }

  /** Every replacement removes exactly the 9-character opener and the
      3-character closer, so the text shrinks by a multiple of 12. */
  lemma {:induction false} SubRemovesWholeMarkers(s: string)
    ensures (|s| - |Sub(s)|) % 12 == 0
    decreases |s|
  {
    if s != [] {
      var rest, removed := SubLengthStep(s);
      SubRemovesWholeMarkers(rest);
      MultipleOfTwelve(|rest| - |Sub(rest)|, |s| - |Sub(s)|);
    }
  }

  /** One step of the scan: a replacement emits the group, drops the
      9-character opener and the 3-character closer and goes on after the
      closer; a copied character drops nothing and goes on after it. */
  lemma SubLengthStep(s: string) returns (rest: string, removed: nat)
    requires s != []
    ensures |rest| < |s| && (removed == 0 || removed == 12)
    ensures |s| - |Sub(s)| == (|rest| - |Sub(rest)|) + removed
    ensures MatchAt(s, 0).Some? ==>
              && rest == s[MatchAt(s, 0).value + |Closer|..]
              && removed == |Opener| + |Closer|
              && Sub(s) == s[|Opener|..MatchAt(s, 0).value] + Sub(rest)
    ensures MatchAt(s, 0).None? ==>
              rest == s[1..] && removed == 0 && Sub(s) == [s[0]] + Sub(rest)
  {
    match MatchAt(s, 0)
    case Some(j) =>
      rest, removed := s[j + |Closer|..], 12;
      assert Sub(s) == s[|Opener|..j] + Sub(rest);
      assert |rest| == |s| - j - |Closer|;
    case None =>
      rest, removed := s[1..], 0;
  }

  lemma MultipleOfTwelve(m: int, n: int)
    requires m % 12 == 0 && (n == m || n == m + 12)
    ensures n % 12 == 0
  {
  }

  /** `clean_cdata(s)` */
  function CleanCdata(s: string): (r: string)
    ensures Stripped(r)
    ensures |r| <= |s|
  {
    Strip(Sub(s))
  }

  /** No section of `s` matches the pattern at any index. */
  predicate NoMatch(s: string) {
    forall k :: 0 <= k < |s| ==> MatchAt(s, k).None?
  }

  lemma NewlineInShift(a: string, t: string, lo: nat, hi: nat)
    requires hi <= |t|
    ensures NewlineIn(a + t, |a| + lo, |a| + hi) <==> NewlineIn(t, lo, hi)
  {
    if NewlineIn(t, lo, hi) {
      var m :| lo <= m < hi && m < |t| && t[m] == '\n';
      assert (a + t)[|a| + m] == '\n';
    }
    if NewlineIn(a + t, |a| + lo, |a| + hi) {
      var m :| |a| + lo <= m < |a| + hi && m < |a + t| && (a + t)[m] == '\n';
      assert t[m - |a|] == '\n';
    }
  }

  /** Matching at an index of `t` does not look at what precedes `t`. */
  lemma MatchAtShift(a: string, t: string, k: nat)
    ensures MatchAt(a + t, |a| + k)
         == match MatchAt(t, k)
            case None => None
            case Some(j) => Some(|a| + j)
  {
    var s, g := a + t, k + |Opener|;
    assert |a| + k + |Opener| == |a| + g;
    OccursAtShift(a, t, Opener, k);
    FindFromShift(a, t, Closer, g);
    if OccursAt(t, Opener, k) {
      match FindFrom(t, Closer, g)
      case None =>
        assert FindFrom(s, Closer, |a| + g) == None;
      case Some(j) =>
        assert FindFrom(s, Closer, |a| + g) == Some(|a| + j);
        NewlineInShift(a, t, g, j);
    }
  }

  /** Matches in `s` after its first character are the matches of `s[1..]`. */
  lemma MatchAtTail(s: string, k: nat)
    requires 0 < |s|
    ensures MatchAt(s, k + 1).None? <==> MatchAt(s[1..], k).None?
  {
    MatchAtShift(s[..1], s[1..], k);
    assert s[..1] + s[1..] == s;
  }

  /** `s` has no match exactly when it has none at the front and its tail
      has none. */
  lemma NoMatchCons(s: string)
    requires 0 < |s|
    ensures NoMatch(s) <==> MatchAt(s, 0).None? && NoMatch(s[1..])
  {
    forall k | 0 <= k < |s| - 1 {
      MatchAtTail(s, k);
    }
    if MatchAt(s, 0).None? && NoMatch(s[1..]) {
      forall k | 0 <= k < |s|
        ensures MatchAt(s, k).None?
      {
        if k > 0 {
          MatchAtTail(s, k - 1);
        }
      }
    }
  }

  lemma {:induction false} SubNoMatch(s: string)
    requires NoMatch(s)
    ensures Sub(s) == s
    decreases |s|
  {
    if s != [] {
      NoMatchCons(s);
      SubNoMatch(s[1..]);
      assert s == [s[0]] + s[1..];
    }
  }

  /** Once anything matches, the output is at least one replacement
      (12 characters) shorter than the input. */
  lemma {:induction false} SubShrinks(s: string, k: nat)
    requires k < |s| && MatchAt(s, k).Some?
    ensures |Sub(s)| <= |s| - 12
    decreases |s|
  {
    if MatchAt(s, 0).None? {
      MatchAtTail(s, k - 1);
      SubShrinks(s[1..], k - 1);
    }
  }

  /** The substitution leaves `s` unchanged exactly when nothing matches. */
  lemma SubIdentityIffNoMatch(s: string)
    ensures Sub(s) == s <==> NoMatch(s)
  {
    if NoMatch(s) {
      SubNoMatch(s);
    } else {
      var k :| 0 <= k < |s| && MatchAt(s, k).Some?;
      SubShrinks(s, k);
    }
  }

  /** On text without a match, `clean_cdata` is plain whitespace stripping. */
  lemma CleanCdataWithoutMatch(s: string)
    requires NoMatch(s)
    ensures CleanCdata(s) == Strip(s)
  {
    SubIdentityIffNoMatch(s);
  }

  /** Text without a `<` holds no opener, so nothing in it matches. */
  lemma NoAngleNoMatch(s: string)
    requires '<' !in s
    ensures NoMatch(s)
  {
    AbsentFirstChar(s, Opener);
  }

  /** A text that does not start with `<` has its first character copied. */
  lemma SubCopiesFirst(s: string)
    requires s != [] && s[0] != '<'
    ensures Sub(s) == [s[0]] + Sub(s[1..])
  {
    assert s[0 + 0] != Opener[0];
  }

  /** Text without a `<` in front of `t` is copied through unchanged. */
  lemma {:induction false} SubPlainPrefix(p: string, t: string)
    requires '<' !in p
    ensures Sub(p + t) == p + Sub(t)
    decreases |p|
  {
    if p == [] {
      assert p + t == t && p + Sub(t) == Sub(t);
    } else {
      var s := p + t;
      SubCopiesFirst(s);
      assert s[1..] == p[1..] + t;
      SubPlainPrefix(p[1..], t);
      calc {
        Sub(s);
        [p[0]] + (p[1..] + Sub(t));
        { Regroup3([p[0]], p[1..], Sub(t)); }
        ([p[0]] + p[1..]) + Sub(t);
        { assert [p[0]] + p[1..] == p; }
        p + Sub(t);
      }
    }
  }

  /** In `Wrap(x) + t` the first `]]>` after the opener is the one `Wrap` put
      there, provided `x` holds none itself. */
  lemma FirstCloserOfWrap(x: string, t: string)
    requires !Contains(x, Closer)
    ensures FindFrom(Wrap(x) + t, Closer, |Opener|) == Some(|Opener| + |x|)
  {
    var s := Wrap(x) + t;
    var e := |Opener| + |x|;
    forall m | 0 <= m < |Closer|
      ensures s[e + m] == Closer[m]
    {
    }
    forall k: nat | |Opener| <= k < e
      ensures !OccursAt(s, Closer, k)
    {
      if k + 3 <= e {
        assert !OccursAt(x, Closer, k - |Opener|);
        forall n | k <= n < k + |Closer|
          ensures s[n] == x[n - |Opener|]
        {
        }
      } else if k + 3 <= |s| {
        assert s[k + 2] == Closer[k + 2 - e] == ']';
        assert Closer[2] == '>';
      }
    }
    FindFromUnique(s, Closer, |Opener|, e);
  }

  /** Unwrapping a well-formed single-line section at the front: its inner
      text comes out, and the scan goes on with what follows. */
  lemma SubWrappedPrefix(x: string, t: string)
    requires '\n' !in x && !Contains(x, Closer)
    ensures Sub(Wrap(x) + t) == x + Sub(t)
  {
    var s := Wrap(x) + t;
    assert s[..|Opener|] == Opener;
    FirstCloserOfWrap(x, t);
    assert s[|Opener|..|Opener| + |x|] == x;
    assert MatchAt(s, 0) == Some(|Opener| + |x|);
    assert s[|Opener| + |x| + |Closer|..] == t;
  }

  /** `clean_cdata` undoes `Wrap` up to stripping. */
  lemma CleanCdataOfWrap(x: string)
    requires '\n' !in x && !Contains(x, Closer)
    ensures CleanCdata(Wrap(x)) == Strip(x)
  {
    SubWrappedPrefix(x, []);
    assert Wrap(x) + [] == Wrap(x);
    assert x + Sub([]) == x;
  }

  /** A section whose content spans a line break is not matched at its
      opener, whatever follows it. */
  lemma MultiLineSectionNotMatched(x: string, t: string)
    requires '\n' in x && !Contains(x, Closer)
    ensures MatchAt(Wrap(x) + t, 0).None?
  {
    var s := Wrap(x) + t;
    assert s[..|Opener|] == Opener;
    FirstCloserOfWrap(x, t);
    assert s[|Opener|..|Opener| + |x|] == x;
  }

  /** ... and when nothing else in it can open a section, `clean_cdata`
      returns it whole. */
  lemma MultiLineSectionKept(x: string)
    requires '\n' in x && !Contains(x, Closer) && '<' !in x
    ensures CleanCdata(Wrap(x)) == Wrap(x)
  {
    var s := Wrap(x);
    MultiLineSectionNotMatched(x, []);
    assert s + [] == s;
    forall k | 1 <= k < |s|
      ensures MatchAt(s, k).None?
    {
      assert s[k] != '<' by {
        if k < |Opener| {
          assert s[k] == Opener[k];
        } else if k < |Opener| + |x| {
          assert s[k] == x[k - |Opener|];
        } else {
          assert s[k] == Closer[k - |Opener| - |x|];
        }
      }
      assert s[k + 0] != Opener[0];
    }
    SubIdentityIffNoMatch(s);
    assert s[0] == '<' && s[|s| - 1] == '>';
    StripOfStripped(s);
  }

  /** One pass over a doubly wrapped `x` leaves a singly wrapped `x`: the
      inner opener is part of the first section's content and is not
      rescanned. */
  lemma NestedSectionUnwrapsOnce(x: string)
    requires '\n' !in x && !Contains(x, Closer)
    ensures Sub(Wrap(Wrap(x))) == Wrap(x)
  {
    var inner := Opener + x;
    NoCloserAfterOpener(x);
    SubWrappedPrefix(inner, Closer);
    Regroup(Opener, x, Closer);
    assert Sub(Closer) == Closer by {
      SubPlainPrefix(Closer, []);
      assert Closer + [] == Closer;
    }
  }

  /** No `]]>` straddles the end of an opener: it ends in `[`, not `]`. */
  lemma NoCloserAfterOpener(x: string)
    requires !Contains(x, Closer)
    ensures !Contains(Opener + x, Closer)
  {
    forall k: nat | OccursAt(Opener + x, Closer, k)
      ensures false
    {
      assert (Opener + x)[k + 0] == Closer[0];
      if k < |Opener| {
        assert false;
      } else {
        OccursAtShift(Opener, x, Closer, k - |Opener|);
      }
    }
  }

  lemma Regroup3(a: string, b: string, c: string)
    ensures a + (b + c) == (a + b) + c
  {
  }

  /** `a + (a + x + c) + c` regrouped as `a + (a + x) + c` followed by `c`. */
  lemma Regroup(a: string, x: string, c: string)
    ensures a + (a + x + c) + c == (a + (a + x) + c) + c
  {
  }

  /** `clean_cdata` is not idempotent: on `<![CDATA[<![CDATA[x]]>]]>` the
      first pass leaves `<![CDATA[x]]>`, which a second pass changes again. */
  lemma CleanCdataNotIdempotent(x: string)
    requires '\n' !in x && !Contains(x, Closer)
    ensures CleanCdata(Wrap(Wrap(x))) == Wrap(x)
    ensures CleanCdata(CleanCdata(Wrap(Wrap(x)))) == Strip(x) != Wrap(x)
  {
    NestedSectionUnwrapsOnce(x);
    var w := Wrap(x);
    assert w[0] == '<' && w[|w| - 1] == '>';
    StripOfStripped(w);
    CleanCdataOfWrap(x);
  }
}
