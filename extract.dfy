/** Command extraction (gitlab_ai_assistant.py, line 149):
    `re.search(r'<command>\s*(.*?)\s*</command>', response_text, re.DOTALL).group(1)`,
    whose group is then passed through `clean_cdata`. */
module Extract {
  import opened Text
  import opened Cdata

  const Open := "<command>"
  const Close := "</command>"

  /** End of the whitespace run that starts at index `i`: how far a greedy
      `\s*` reaches from there. */
  function SpaceRunEnd(resp: string, i: nat): (j: nat)
    requires i <= |resp|
    decreases |resp| - i
    ensures i <= j <= |resp|
    ensures forall k {:trigger IsSpace(resp[k])} :: i <= k < j ==> IsSpace(resp[k])
    ensures j < |resp| ==> !IsSpace(resp[j])
  {
    if i < |resp| && IsSpace(resp[i]) then SpaceRunEnd(resp, i + 1) else i
  }

  /** The lazy `(.*?)\s*</command>` once the group has started: the group
      end `e` grows one character at a time (DOTALL lets `.` take any
      character) until the whitespace run at `e` is followed by the closing
      tag. Only the longest whitespace run can be followed by it, since the
      tag begins with `<`, which is not whitespace. */
  function LazyEnd(resp: string, e: nat): (r: Option<nat>)
    requires e <= |resp|
    decreases |resp| - e
    ensures r.Some? ==> e <= r.value <= |resp| && OccursAt(resp, Close, SpaceRunEnd(resp, r.value))
  {
    if OccursAt(resp, Close, SpaceRunEnd(resp, e)) then Some(e)
    else if e < |resp| then LazyEnd(resp, e + 1)
    else None
  }

  /** Group 1 of the search, following the regular expression engine: the
      match starts at the first `<command>` (a later start can only succeed
      if this one does), the greedy `\s*` takes the whole whitespace run after
      it, and LazyEnd finds the end of the group. */
  function CommandGroup(resp: string): (r: Option<string>) {
    match FindFrom(resp, Open, 0)
    case None => None
    case Some(p) =>
      var g := SpaceRunEnd(resp, p + |Open|);
      match LazyEnd(resp, g)
      case None => None
      case Some(e) => Some(resp[g..e])
  }

  /** The same group described by what it is: the text between the first
      `<command>` and the first `</command>` after it, stripped. */
  function FirstBlock(resp: string): (r: Option<string>) {
    match FindFrom(resp, Open, 0)
    case None => None
    case Some(p) =>
      match FindFrom(resp, Close, p + |Open|)
      case None => None
      case Some(q) => Some(Strip(resp[p + |Open|..q]))
  }

  /** `git_command`: the group with its CDATA sections unwrapped and its ends
      stripped, or None where the script fails because `re.search` returned
      None. */
  function ExtractCommand(resp: string): (r: Option<string>)
    ensures r.Some? <==> CommandGroup(resp).Some?
    ensures r.Some? ==> r.value == CleanCdata(CommandGroup(resp).value)
    ensures r.Some? ==> Stripped(r.value) && |r.value| <= |resp|
  {
    match CommandGroup(resp)
    case None => None
    case Some(g) =>
      assert |g| <= |resp|;
      Some(CleanCdata(g))
  }

  /** The closing tag begins with `<`. */
  lemma CloseStartsWithAngle(resp: string, q: nat)
    requires OccursAt(resp, Close, q)
    ensures resp[q] == '<' && !IsSpace(resp[q])
  {
    assert resp[q + 0] == Close[0];
  }

  /** Without a closing tag at or after `e` the lazy scan fails. */
  lemma {:induction false} LazyEndWithoutClose(resp: string, e: nat)
    requires e <= |resp|
    requires forall k: nat :: e <= k ==> !OccursAt(resp, Close, k)
    ensures LazyEnd(resp, e).None?
    decreases |resp| - e
  {
    assert !OccursAt(resp, Close, SpaceRunEnd(resp, e));
    if e < |resp| {
      LazyEndWithoutClose(resp, e + 1);
    }
  }

  /** A greedy `\s*` from `e` stops at or before any non-whitespace character. */
  lemma SpaceRunStops(resp: string, e: nat, m: nat)
    requires e <= m < |resp| && !IsSpace(resp[m])
    ensures SpaceRunEnd(resp, e) <= m
  {
  }

  /** A greedy `\s*` over whitespace up to a closing tag ends at the tag. */
  lemma SpaceRunReachesClose(resp: string, e: nat, q: nat)
    requires e <= q && OccursAt(resp, Close, q)
    requires forall k {:trigger IsSpace(resp[k])} :: e <= k < q ==> IsSpace(resp[k])
    ensures SpaceRunEnd(resp, e) == q
  {
    CloseStartsWithAngle(resp, q);
  }

  /** Start of the whitespace run that ends at `q`, going no further back
      than `e`. */
  function RunStart(resp: string, e: nat, q: nat): (f: nat)
    requires e <= q <= |resp|
    decreases q - e
    ensures e <= f <= q
    ensures forall k {:trigger IsSpace(resp[k])} :: f <= k < q ==> IsSpace(resp[k])
    ensures f == e || !IsSpace(resp[f - 1])
  {
    if e < q && IsSpace(resp[q - 1]) then RunStart(resp, e, q - 1) else q
  }

  /** The lazy scan from `e` returns the first group end after which the
      closing tag can follow. */
  lemma {:induction false} LazyEndFirst(resp: string, e: nat, f: nat)
    requires e <= f <= |resp| && OccursAt(resp, Close, SpaceRunEnd(resp, f))
    requires forall g: nat :: e <= g < f ==> !OccursAt(resp, Close, SpaceRunEnd(resp, g))
    ensures LazyEnd(resp, e) == Some(f)
    decreases f - e
  {
    if e < f {
      assert !OccursAt(resp, Close, SpaceRunEnd(resp, e));
      LazyEndFirst(resp, e + 1, f);
    }
  }

  /** The lazy scan from `e` stops at the start of the whitespace run that
      precedes the first closing tag `q` at or after `e`. */
  lemma LazyEndAtFirstClose(resp: string, e: nat, q: nat)
    requires e <= q && OccursAt(resp, Close, q)
    requires forall k: nat :: e <= k < q ==> !OccursAt(resp, Close, k)
    ensures LazyEnd(resp, e) == Some(RunStart(resp, e, q))
  {
    var f := RunStart(resp, e, q);
    SpaceRunReachesClose(resp, f, q);
    forall g: nat | e <= g < f
      ensures !OccursAt(resp, Close, SpaceRunEnd(resp, g))
    {
      SpaceRunStops(resp, g, f - 1);
    }
    LazyEndFirst(resp, e, f);
  }

  /** The regular expression's group is the stripped text between the first
      `<command>` and the first `</command>` that follows it. */
  lemma CommandGroupIsFirstBlock(resp: string)
    ensures CommandGroup(resp) == FirstBlock(resp)
  {
    match FindFrom(resp, Open, 0)
    case None =>
    case Some(p) =>
      var s0 := p + |Open|;
      match FindFrom(resp, Close, s0)
      case None =>
        LazyEndWithoutClose(resp, SpaceRunEnd(resp, s0));
      case Some(q) =>
        GroupIsStrippedSegment(resp, s0, q);
  }

  /** Skipping the whitespace after the opening tag and stopping where the
      whitespace before `q` begins is stripping the text between. */
  lemma StripOfRuns(resp: string, s0: nat, q: nat)
    requires s0 <= q < |resp| && !IsSpace(resp[q])
    ensures SpaceRunEnd(resp, s0) <= q
    ensures resp[SpaceRunEnd(resp, s0)..RunStart(resp, SpaceRunEnd(resp, s0), q)] == Strip(resp[s0..q])
  {
    var g := SpaceRunEnd(resp, s0);
    SpaceRunStops(resp, s0, q);
    var f := RunStart(resp, g, q);
    assert g < f ==> !IsSpace(resp[g]);
    StripBetweenRuns(resp, s0, g, f, q);
  }

  lemma GroupIsStrippedSegment(resp: string, s0: nat, q: nat)
    requires s0 <= q && OccursAt(resp, Close, q)
    requires forall k: nat :: s0 <= k < q ==> !OccursAt(resp, Close, k)
    ensures LazyEnd(resp, SpaceRunEnd(resp, s0)).Some?
    ensures resp[SpaceRunEnd(resp, s0)..LazyEnd(resp, SpaceRunEnd(resp, s0)).value]
         == Strip(resp[s0..q])
  {
    CloseStartsWithAngle(resp, q);
    StripOfRuns(resp, s0, q);
    LazyEndAtFirstClose(resp, SpaceRunEnd(resp, s0), q);
  }

  /** Extraction succeeds exactly when some `<command>` is followed, at or
      after its end, by a `</command>`; otherwise the search finds nothing
      and the script fails instead of producing a string. */
  lemma CommandFoundIff(resp: string)
    ensures CommandGroup(resp).Some?
        <==> exists p: nat, q: nat :: OccursAt(resp, Open, p) && OccursAt(resp, Close, q) && p + |Open| <= q
  {
    CommandGroupIsFirstBlock(resp);
    match FindFrom(resp, Open, 0)
    case None =>
      forall p0: nat
        ensures !OccursAt(resp, Open, p0)
      {
      }
    case Some(p) =>
      match FindFrom(resp, Close, p + |Open|)
      case None =>
        forall p0: nat, q0: nat | OccursAt(resp, Open, p0) && OccursAt(resp, Close, q0)
          ensures q0 < p0 + |Open|
        {
          assert p <= p0;
        }
      case Some(q) =>
        assert OccursAt(resp, Open, p) && OccursAt(resp, Close, q) && p + |Open| <= q;
  }

  /** Stated by positions: with `p` the first `<command>` and `q` the first
      `</command>` at or after its end, the group is the text in between
      without its leading and trailing whitespace. */
  lemma CommandBetweenFirstTags(resp: string, p: nat, q: nat)
    requires OccursAt(resp, Open, p) && forall k: nat :: k < p ==> !OccursAt(resp, Open, k)
    requires p + |Open| <= q && OccursAt(resp, Close, q)
    requires forall k: nat :: p + |Open| <= k < q ==> !OccursAt(resp, Close, k)
    ensures CommandGroup(resp) == Some(Strip(resp[p + |Open|..q]))
  {
    FindFromUnique(resp, Open, 0, p);
    FindFromUnique(resp, Close, p + |Open|, q);
    CommandGroupIsFirstBlock(resp);
  }

  /** The extracted group never holds a closing tag: the lazy group stops at
      the first one. */
  lemma CommandHasNoCloseTag(resp: string)
    requires CommandGroup(resp).Some?
    ensures !Contains(CommandGroup(resp).value, Close)
  {
    CommandGroupIsFirstBlock(resp);
    var p := FindFrom(resp, Open, 0).value;
    var s0 := p + |Open|;
    var q := FindFrom(resp, Close, s0).value;
    var g := SpaceRunEnd(resp, s0);
    CloseStartsWithAngle(resp, q);
    assert g <= q;
    LazyEndAtFirstClose(resp, g, q);
    var f := RunStart(resp, g, q);
    forall k: nat | OccursAt(resp[g..f], Close, k)
      ensures false
    {
      OccursInSlice(resp, g, f, Close, k);
    }
  }

  /** First match wins: whatever follows a complete command block, further
      blocks included, does not change what is extracted. */
  lemma FirstBlockWins(a: string, b: string)
    requires CommandGroup(a).Some?
    ensures CommandGroup(a + b) == CommandGroup(a)
  {
    CommandGroupIsFirstBlock(a);
    CommandGroupIsFirstBlock(a + b);
    FirstBlockExtend(a, b);
  }

  lemma FirstBlockExtend(a: string, b: string)
    requires FirstBlock(a).Some?
    ensures FirstBlock(a + b) == FirstBlock(a)
  {
    var p := FindFrom(a, Open, 0).value;
    FindFromExtend(a, b, Open, 0);
    var q := FindFrom(a, Close, p + |Open|).value;
    FindFromExtend(a, b, Close, p + |Open|);
    SliceOfAppend(a, b, p + |Open|, q);
  }

  /** A response that is one command block around `x` yields `x` without its
      leading and trailing whitespace; line breaks and spacing inside `x`
      are kept. */
  lemma CommandOfBlock(x: string)
    requires !Contains(x, Close)
    ensures CommandGroup(Open + x + Close) == Some(Strip(x))
  {
    var resp := Open + x + Close;
    var e := |Open| + |x|;
    assert resp[..|Open|] == Open;
    assert resp[e..e + |Close|] == Close;
    forall k: nat | |Open| <= k < e
      ensures !OccursAt(resp, Close, k)
    {
      if k + |Close| <= e {
        assert resp[k..k + |Close|] == x[k - |Open|..k - |Open| + |Close|];
        assert !OccursAt(x, Close, k - |Open|);
      } else {
        assert resp[k..k + |Close|][e - k] == resp[e] == '<';
        assert Close[e - k] != '<';
      }
    }
    assert resp[|Open|..e] == x;
    CommandBetweenFirstTags(resp, 0, e);
  }

  /** Only the raw group is kept free of `</command>`: a closing tag
      wrapped in a CDATA section inside the block is unwrapped into the
      extracted command. */
  lemma WrappedCloseTagReachesCommand()
    ensures ExtractCommand(Open + Wrap("</") + "command>" + Close) == Some(Close)
  {
    GroupOfWrappedClose();
    CleanWrappedClose();
  }

  /** The raw group is the block's text, CDATA markers included. */
  lemma GroupOfWrappedClose()
    ensures CommandGroup(Open + Wrap("</") + "command>" + Close)
         == Some(Wrap("</") + "command>")
  {
    var x := Wrap("</") + "command>";
    assert Open + x + Close == Open + Wrap("</") + "command>" + Close;
    NoCloseTagInWrappedClose();
    CommandOfBlock(x);
    StripWrappedClose();
  }

  /** The text starts with `<` and ends with `>`, so Strip keeps it. */
  lemma StripWrappedClose()
    ensures Strip(Wrap("</") + "command>") == Wrap("</") + "command>"
  {
    var x := Wrap("</") + "command>";
    assert x[0] == '<' && x[|x| - 1] == '>';
    StripOfStripped(x);
  }

  /** The wrapped closing tag is broken up by the CDATA markers, so the
      block's raw text holds no `</command>`. */
  lemma NoCloseTagInWrappedClose()
    ensures !Contains(Wrap("</") + "command>", Close)
  {
    var x := "<![CDATA[</]]>command>";
    assert x == Wrap("</") + "command>";
    forall k: nat | k + |Close| <= |x|
      ensures !OccursAt(x, Close, k)
    {
      assert x[k + 1] != Close[1] || x[k + 2] != Close[2];
    }
  }

  /** Unwrapping the section joins `</` and `command>` into the tag. */
  lemma CleanWrappedClose()
    ensures CleanCdata(Wrap("</") + "command>") == Close
  {
    SubWrappedClose();
    CloseSplit();
    StripOfStripped(Close);
  }

  lemma CloseSplit()
    ensures "</" + "command>" == Close
  {
  }

  lemma SubWrappedClose()
    ensures Sub(Wrap("</") + "command>") == "</" + "command>"
  {
    AbsentFirstChar("</", Closer);
    SubWrappedThenPlain("</", "command>");
  }

  /** A section followed by text without `<` unwraps to its content and
      that text. */
  lemma SubWrappedThenPlain(x: string, p: string)
    requires '\n' !in x && !Contains(x, Closer) && '<' !in p
    ensures Sub(Wrap(x) + p) == x + p
  {
    SubWrappedPrefix(x, p);
    SubPlainPrefix(p, []);
    assert p + [] == p;
  }
}
