/** Inline code: `parseInlineCode` cuts the text into the code regions an
    earlier stage produced, `<code…>…</code>`, and the plain text between
    them; regions are copied verbatim, backtick spans in the plain text
    become code elements. */
module InlineCode {
  import opened Text
  import opened Patterns

  /** One entry of the list the parser builds: plain text or a code region. */
  datatype Segment = Plain(content: string) | Code(content: string)

  /** `codeBlockPattern.exec` with `lastIndex` at k: the leftmost code
      region that starts at k or later, at its offset in s. */
  function NextMatch(m: Matcher, s: string, k: nat): (r: Option<Found>)
    requires Progressive(m) && k <= |s|
    ensures r.Some? ==> k <= r.value.pos && 0 < r.value.hit.len && r.value.pos + r.value.hit.len <= |s|
  {
    FindFirstLeftmost(m, LineStart(s, k), s[k..]);
    match FindFirst(m, LineStart(s, k), s[k..])
    case None => None
    case Some(f) => Some(Found(k + f.pos, f.hit))
  }

  /** The plain text pushed before a region that starts at index, when the
      previous region ended at prev: all of it for the first region, and
      for a later region only a gap of two characters or more. */
  function Gap(s: string, prev: nat, index: nat): (r: seq<Segment>)
    requires prev <= index <= |s|
    ensures r == [] || r == [Plain(s[prev..index])]
  {
    if (prev == 0 && index > 0) || prev + 1 < index then [Plain(s[prev..index])] else []
  }

  /** The segments the loop pushes once the previous region ended at prev. */
  function SegmentsFrom(m: Matcher, s: string, prev: nat): seq<Segment>
    requires Progressive(m) && prev <= |s|
    decreases |s| - prev
  {
    match NextMatch(m, s, prev)
    case None => [Plain(s[prev..])]
    case Some(f) =>
      Gap(s, prev, f.pos) + [Code(s[f.pos..f.pos + f.hit.len])] + SegmentsFrom(m, s, f.pos + f.hit.len)
  }

  /** One turn of the exec loop: pushing the gap and the region found
      after prev leaves the segments after that region to push. */
  lemma PushStep(m: Matcher, s: string, prev: nat, f: Found, before: seq<Segment>, after: seq<Segment>)
    requires Progressive(m) && prev <= |s| && NextMatch(m, s, prev) == Some(f)
    requires after == before + Gap(s, prev, f.pos) + [Code(s[f.pos..f.pos + f.hit.len])]
    ensures f.pos + f.hit.len <= |s|
    ensures before + SegmentsFrom(m, s, prev) == after + SegmentsFrom(m, s, f.pos + f.hit.len)
  {
    var last := f.pos + f.hit.len;
    SegmentsStep(m, s, prev, f);
    Shift(before, after, SegmentsFrom(m, s, prev),
          Gap(s, prev, f.pos), [Code(s[f.pos..last])], SegmentsFrom(m, s, last));
  }

  /** The segments after prev, one region further. */
  lemma SegmentsStep(m: Matcher, s: string, prev: nat, f: Found)
    requires Progressive(m) && prev <= |s| && NextMatch(m, s, prev) == Some(f)
    ensures f.pos + f.hit.len <= |s|
    ensures SegmentsFrom(m, s, prev)
            == Gap(s, prev, f.pos) + [Code(s[f.pos..f.pos + f.hit.len])] + SegmentsFrom(m, s, f.pos + f.hit.len)
  {
  }

  /** Moving two parts from the list still to push to the list pushed. */
  lemma Shift<T>(before: seq<T>, after: seq<T>, todo: seq<T>, g: seq<T>, c: seq<T>, rest: seq<T>)
    requires todo == g + c + rest && after == before + g + c
    ensures before + todo == after + rest
  {
  }

  /** The inline-code pattern: every backtick span becomes a code element. */
  function Backticks(t: string): string {
    InlineProgressive();
    ReplaceAll(MatchBacktick, true, t)
  }

  /** What the reduce appends for one segment. */
  function RenderSegment(g: Segment): string {
    match g
    case Plain(c) => Backticks(c)
    case Code(c) => c
  }

  /** What the reduce accumulates over a list of segments. */
  function RenderAll(gs: seq<Segment>): (r: seq<string>)
    ensures |r| == |gs|
  {
    if gs == [] then [] else RenderAll(gs[..|gs| - 1]) + [RenderSegment(gs[|gs| - 1])]
  }

  /** The text produced from the segments that m delimits after prev. */
  function RenderFrom(m: Matcher, s: string, prev: nat): string
    requires Progressive(m) && prev <= |s|
  {
    Join(RenderAll(SegmentsFrom(m, s, prev)), "")
  }

  /** The text produced from the segments pushed after prev. */
  function InlineFrom(s: string, prev: nat): string
    requires prev <= |s|
  {
    InlineProgressive();
    RenderFrom(MatchCodeRegion, s, prev)
  }

  /** `parseInlineCode` as a function of its input. */
  function InlineCodeOf(s: string): string {
    InlineFrom(s, 0)
  }

  /** `parseInlineCode`: the exec loop collects the segments, then the
      reduce renders them and the results are joined. */
  method ParseInlineCode(s: string) returns (out: string)
    ensures out == InlineCodeOf(s)
  {
    InlineProgressive();
    var parsed := CollectSegments(MatchCodeRegion, s);
    out := RenderSegments(parsed);
  }

  /** The exec loop of `parseInlineCode` with the region pattern m: each
      match pushes the text before it and the match itself; the text after
      the last match is pushed at the end. */
  method CollectSegments(m: Matcher, s: string) returns (parsed: seq<Segment>)
    requires Progressive(m)
    ensures parsed == SegmentsFrom(m, s, 0)
  {
    ghost var segs := SegmentsFrom(m, s, 0);
    parsed := [];
    var prev: nat := 0;
    while true
      invariant prev <= |s|
      invariant parsed + SegmentsFrom(m, s, prev) == segs
      decreases |s| - prev
    {
      var found := NextMatch(m, s, prev);
      if found.Some? {
        parsed, prev := PushMatch(m, s, prev, found.value, parsed);
      } else {
        break;
      }
    }
    parsed := parsed + [Plain(s[prev..])];
  }

  /** One turn of the exec loop: the text before the match is pushed all
      of it before the first match, otherwise only when it is a gap of two
      characters or more; then the match is pushed. */
  method PushMatch(m: Matcher, s: string, prev: nat, f: Found, parsed: seq<Segment>)
    returns (pushed: seq<Segment>, last: nat)
    requires Progressive(m) && prev <= |s| && NextMatch(m, s, prev) == Some(f)
    ensures prev < last <= |s|
    ensures pushed + SegmentsFrom(m, s, last) == parsed + SegmentsFrom(m, s, prev)
  {
    var index: int := f.pos;
    last := f.pos + f.hit.len;
    pushed := parsed;
    if prev == 0 && index > 0 {
      pushed := pushed + [Plain(s[0..index])];
    } else if prev < index - 1 {
      pushed := pushed + [Plain(s[prev..index])];
    }
    assert pushed == parsed + Gap(s, prev, index);
    pushed := pushed + [Code(s[index..last])];
    PushStep(m, s, prev, f, parsed, pushed);
  }

  /** The reduce over the segments and the final join: plain text goes
      through the backtick pattern, code regions are appended as they are. */
  method RenderSegments(parsed: seq<Segment>) returns (out: string)
    ensures out == Join(RenderAll(parsed), "")
  {
    var acc: seq<string> := [];
    var i := 0;
    while i < |parsed|
      invariant 0 <= i <= |parsed|
      invariant acc == RenderAll(parsed[..i])
    {
      assert parsed[..i + 1][..i] == parsed[..i];
      var g := parsed[i];
      if g.Plain? {
        acc := acc + [Backticks(g.content)];
      } else {
        acc := acc + [g.content];
      }
      i := i + 1;
    }
    assert parsed[..|parsed|] == parsed;
    out := Join(acc, "");
  }

  // ---------------------------------------------------------------------
  // What the output is made of

  /** Rendering a list of segments made of two parts renders each part. */
  lemma RenderConcat(a: seq<Segment>, b: seq<Segment>)
    ensures Join(RenderAll(a + b), "") == Join(RenderAll(a), "") + Join(RenderAll(b), "")
  {
    RenderAppend(a, b);
    JoinConcat(RenderAll(a), RenderAll(b));
  }

  lemma {:induction false} RenderAppend(a: seq<Segment>, b: seq<Segment>)
    ensures RenderAll(a + b) == RenderAll(a) + RenderAll(b)
    decreases |b|
  {
    if b == [] {
      assert a + b == a;
    } else {
      var c := a + b;
      assert c[..|c| - 1] == a + b[..|b| - 1];
      RenderAppend(a, b[..|b| - 1]);
    }
  }

  /** The rendered segments from prev on, one region at a time: the
      rendered gap (if it is pushed at all), the region verbatim, then the
      rendered segments after it. */
  lemma RenderStep(m: Matcher, s: string, prev: nat, index: nat, next: nat)
    requires Progressive(m) && prev <= index <= next <= |s|
    requires NextMatch(m, s, prev) == Some(Found(index, Hit(next - index, s[index..next])))
    ensures RenderFrom(m, s, prev)
            == (if (prev == 0 && prev < index) || prev + 2 <= index then Backticks(s[prev..index]) else "")
               + s[index..next] + RenderFrom(m, s, next)
  {
    var f := Found(index, Hit(next - index, s[index..next]));
    SegmentsStep(m, s, prev, f);
    assert f.pos + f.hit.len == next;
    var gap, code, rest := Gap(s, prev, index), [Code(s[index..next])], SegmentsFrom(m, s, next);
    RenderSplit(gap, code, rest);
    RenderGap(s, prev, index);
    RenderCode(s[index..next]);
  }

  /** What the gap before a region renders to. */
  lemma RenderGap(s: string, prev: nat, index: nat)
    requires prev <= index <= |s|
    ensures Join(RenderAll(Gap(s, prev, index)), "")
            == if (prev == 0 && prev < index) || prev + 2 <= index then Backticks(s[prev..index]) else ""
  {
    if Gap(s, prev, index) != [] {
      assert RenderAll([Plain(s[prev..index])]) == [Backticks(s[prev..index])];
    }
  }

  /** A region renders to itself. */
  lemma RenderCode(c: string)
    ensures Join(RenderAll([Code(c)]), "") == c
  {
    assert RenderAll([Code(c)]) == [c];
  }

  /** Rendering a list of segments made of three parts renders each part. */
  lemma RenderSplit(a: seq<Segment>, b: seq<Segment>, c: seq<Segment>)
    ensures Join(RenderAll(a + b + c), "") == Join(RenderAll(a), "") + Join(RenderAll(b), "") + Join(RenderAll(c), "")
  {
    RenderConcat(a + b, c);
    RenderConcat(a, b);
  }

  /** Text without any "<code" (in any letter case) holds no code region. */
  predicate NoCodeTag(t: string) {
    forall i | 0 <= i < |t| :: !AtIgnoringCase(t, i, "<code")
  }

  /** A literal at offset i of t is a literal at the start of t[i..]. */
  lemma TagAt(t: string, i: nat, lit: string)
    requires i <= |t|
    ensures AtIgnoringCase(t[i..], 0, lit) == AtIgnoringCase(t, i, lit)
  {
    if i + |lit| <= |t| {
      assert forall j | 0 <= j < |lit| :: t[i..][j] == t[i + j];
    }
  }

  /** No "<code" tag at or after prev is followed by a closing tag
      "</code>" (both in any letter case): no region can be completed. */
  predicate NoRegionFrom(s: string, prev: nat) {
    forall i, j | prev <= i < j < |s| :: AtIgnoringCase(s, i, "<code") ==> !AtIgnoringCase(s, j, "</code>")
  }

  /** After a "<code" tag at i of s without a later closing tag, no closing
      tag follows in s[i..] either. */
  lemma NoCloseAfter(s: string, i: nat, k: nat)
    requires i < |s| && 0 < k && forall j | i < j < |s| :: !AtIgnoringCase(s, j, "</code>")
    ensures !AtIgnoringCase(s[i..], k, "</code>")
  {
    if i + k < |s| {
      TagShift(s, i, k, "</code>");
    }
  }

  /** When no region can be completed at prev or later, the rest of the
      text is one plain segment: its backtick spans are rendered and nothing
      else changes. */
  lemma InlineRest(s: string, prev: nat)
    requires prev <= |s| && NoRegionFrom(s, prev)
    ensures InlineFrom(s, prev) == Backticks(s[prev..])
  {
    InlineProgressive();
    var t := s[prev..];
    forall i | 0 <= i < |t|
      ensures AttemptAt(MatchCodeRegion, LineStart(s, prev), t, i).None?
    {
      var u := t[i..];
      assert u == s[prev + i..];
      TagAt(s, prev + i, "<code");
      if AtIgnoringCase(s, prev + i, "<code") {
        forall k: nat | 0 < k
          ensures !AtIgnoringCase(u, k, "</code>")
        {
          NoCloseAfter(s, prev + i, k);
        }
      }
    }
    ReplaceNothing(MatchCodeRegion, LineStart(s, prev), t);
    assert SegmentsFrom(MatchCodeRegion, s, prev) == [Plain(t)];
  }

  /** No closing tag "</code>" (in any letter case) starts at from or later. */
  predicate NoCloseFrom(s: string, from: nat) {
    forall i | from <= i < |s| :: !AtIgnoringCase(s, i, "</code>")
  }

  /** Without a closing tag, no region can be completed, even when a
      "<code" tag opens one: parseInlineCode renders the backtick spans of
      the whole text, inside the unclosed region included. */
  lemma InlineUnclosed(s: string)
    requires NoCloseFrom(s, 0)
    ensures InlineCodeOf(s) == Backticks(s)
  {
    assert s[0..] == s;
    InlineRest(s, 0);
  }

  /** After an opening tag "<code>", text without '<' holds no closing tag. */
  lemma NoCloseAfterTag(x: string)
    requires Lacks(x, '<')
    ensures NoCloseFrom("<code>" + x, 0)
  {
    var t := "<code>" + x;
    forall i | 0 <= i < |t|
      ensures !AtIgnoringCase(t, i, "</code>")
    {
      if i == 0 {
        NoTagAt(t, 0, "</code>", 1);
      } else {
        if 6 <= i {
          assert t[i] == x[i - 6];
        }
        LowerKeeps(t[i]);
        NoTagAt(t, i, "</code>", 0);
      }
    }
  }

  /** The backtick pattern on one span and anything after it. */
  lemma BacktickHit(y: string, post: string)
    requires y != [] && Lacks(y, '`')
    ensures MatchBacktick(true, "`" + y + "`" + post) == Some(Hit(|y| + 2, "<code>" + y + "</code>"))
    ensures ("`" + y + "`" + post)[|y| + 2..] == post
  {
    var u := "`" + y + "`" + post;
    assert forall j | 1 <= j < |y| + 1 :: u[j] == y[j - 1];
    RunEndIs(u, 1, NotBacktick, |y| + 1);
    assert u[1..|y| + 1] == y;
  }

  /** A backtick span after text without backticks becomes a code element,
      and the rest is rendered on its own. */
  lemma BacktickSpan(pre: string, y: string, post: string)
    requires Lacks(pre, '`') && y != [] && Lacks(y, '`')
    ensures Backticks(pre + "`" + y + "`" + post) == pre + "<code>" + y + "</code>" + Backticks(post)
  {
    BacktickLaws();
    var u := "`" + y + "`" + post;
    BacktickHit(y, post);
    SpanAfter(MatchBacktick, '`', pre, u, Hit(|y| + 2, "<code>" + y + "</code>"));
    InFrontShort(pre, "`", y, "`", post);
    Spliced(pre, "<code>", y, "</code>", Backticks(post));
  }

  /** Without code regions, parseInlineCode renders the backtick spans of
      the whole text. */
  lemma InlinePlain(s: string)
    requires NoCodeTag(s)
    ensures InlineCodeOf(s) == Backticks(s)
  {
    assert s[0..] == s;
    InlineRest(s, 0);
  }

  // ---------------------------------------------------------------------
  // Code regions

  /** r is exactly one code region: "<code" in any letter case, attributes
      without '>', '>', a non-empty body, and the first "</code>" after
      the body's first character closes it at the end of r. */
  predicate IsRegion(r: string) {
    AtIgnoringCase(r, 0, "<code")
    && var q := RunEnd(r, 5, NotGreater);
       q + 9 <= |r| && AtIgnoringCase(r, |r| - 7, "</code>")
       && forall i | q + 2 <= i < |r| - 7 :: !AtIgnoringCase(r, i, "</code>")
  }

  /** A literal inside r is found in r followed by anything. */
  lemma TagInPrefix(r: string, post: string, i: nat, lit: string)
    requires i + |lit| <= |r|
    ensures AtIgnoringCase(r + post, i, lit) == AtIgnoringCase(r, i, lit)
  {
    assert forall k | i <= k < i + |lit| :: (r + post)[k] == r[k];
  }

  /** The lazy body ends at the only closing tag in range. */
  lemma ShortestBodyAt(t: string, b: nat, n: nat, e: nat)
    requires 1 <= n <= e && AtIgnoringCase(t, b + e, "</code>")
    requires forall i | b + n <= i < b + e :: !AtIgnoringCase(t, i, "</code>")
    ensures ShortestBody(t, b, n) == Some(e)
  {
  }

  /** The region pattern, tried at the start of a region, matches exactly
      that region whatever follows it. */
  lemma RegionMatch(bol: bool, r: string, post: string)
    requires IsRegion(r)
    ensures MatchCodeRegion(bol, r + post) == Some(Hit(|r|, r))
  {
    var t := r + post;
    var q := RunEnd(r, 5, NotGreater);
    TagInPrefix(r, post, 0, "<code");
    assert forall j | 5 <= j <= q :: t[j] == r[j];
    RunEndIs(t, 5, NotGreater, q);
    var e := |r| - 7 - (q + 1);
    TagInPrefix(r, post, q + 1 + e, "</code>");
    forall i | q + 2 <= i < q + 1 + e
      ensures !AtIgnoringCase(t, i, "</code>")
    {
      TagInPrefix(r, post, i, "</code>");
    }
    ShortestBodyAt(t, q + 1, 1, e);
    assert t[..|r|] == r;
  }

  /** The upper-case letters are the only characters lowering changes. */
  lemma LowerKeeps(c: char)
    ensures LowerAscii(c) == '<' <==> c == '<'
    ensures LowerAscii(c) == '>' <==> c == '>'
  {
  }

  /** Text without '<' holds no "<code". */
  lemma LacksNoTag(t: string)
    requires Lacks(t, '<')
    ensures NoCodeTag(t)
  {
    forall i | 0 <= i < |t|
      ensures !AtIgnoringCase(t, i, "<code")
    {
      LowerKeeps(t[i]);
      assert "<code"[0] == '<';
    }
  }

  /** A region written `<code attrs>body</code>`, with no '>' in the
      attributes and no '<' in a non-empty body. */
  lemma RegionShape(attrs: string, body: string)
    requires Lacks(attrs, '>') && body != [] && Lacks(body, '<')
    ensures IsRegion("<code" + attrs + ">" + body + "</code>")
  {
    var r := "<code" + attrs + ">" + body + "</code>";
    var q := 5 + |attrs|;
    assert forall j | 0 <= j < 5 :: r[j] == "<code"[j];
    assert forall j | 5 <= j < q :: r[j] == attrs[j - 5];
    assert r[q] == '>';
    RunEndIs(r, 5, NotGreater, q);
    assert forall j | 0 <= j < 7 :: r[|r| - 7 + j] == "</code>"[j];
    forall i | q + 2 <= i < |r| - 7
      ensures !AtIgnoringCase(r, i, "</code>")
    {
      assert r[i + 0] == body[i - q - 1];
      LowerKeeps(r[i + 0]);
      assert "</code>"[0] == '<';
    }
  }

  /** A match found in the rest of the text is the next match, shifted
      to its offset in the whole text. */
  lemma NextFound(m: Matcher, s: string, prev: nat, f: Found)
    requires Progressive(m) && prev <= |s| && FindFirst(m, LineStart(s, prev), s[prev..]) == Some(f)
    ensures NextMatch(m, s, prev) == Some(Found(prev + f.pos, f.hit))
  {
  }

  /** No code tag starts at a position of s from i up to j (a tag may
      still run past j). */
  predicate NoTagBetween(s: string, i: nat, j: nat) {
    forall k | i <= k < j :: !AtIgnoringCase(s, k, "<code")
  }

  /** A literal at offset i of s[prev..] is one at offset prev + i of s. */
  lemma TagShift(s: string, prev: nat, i: nat, lit: string)
    requires prev + i <= |s|
    ensures AtIgnoringCase(s[prev..], i, lit) == AtIgnoringCase(s, prev + i, lit)
  {
    TagAt(s[prev..], i, lit);
    assert s[prev..][i..] == s[prev + i..];
    TagAt(s, prev + i, lit);
  }

  /** A literal found at i starts with its first character there. */
  lemma TagFirst(t: string, i: nat, lit: string)
    requires AtIgnoringCase(t, i, lit) && lit != []
    ensures LowerAscii(t[i]) == lit[0]
  {
    assert LowerAscii(t[i + 0]) == lit[0];
  }

  /** One character that differs rules a literal out at i. */
  lemma NoTagAt(t: string, i: nat, lit: string, j: nat)
    requires j < |lit| && i + j < |t| && LowerAscii(t[i + j]) != lit[j]
    ensures !AtIgnoringCase(t, i, lit)
  {
  }

  /** A gap without '<' holds the start of no code tag. */
  lemma LacksNoTagBetween(s: string, i: nat, j: nat)
    requires i <= j <= |s| && Lacks(s[i..j], '<')
    ensures NoTagBetween(s, i, j)
  {
    forall k | i <= k < j
      ensures !AtIgnoringCase(s, k, "<code")
    {
      assert s[i..j][k - i] == s[k];
      LowerKeeps(s[k]);
      assert s[k + 0] == s[k];
      NoTagAt(s, k, "<code", 0);
    }
  }

  /** Where the exec loop finds the next region: after a gap in which no
      code tag starts. */
  lemma NextAt(s: string, prev: nat, index: nat, next: nat)
    requires prev <= index <= next <= |s|
    requires NoTagBetween(s, prev, index) && IsRegion(s[index..next])
    ensures (InlineProgressive(); NextMatch(MatchCodeRegion, s, prev) == Some(Found(index, Hit(next - index, s[index..next]))))
  {
    InlineProgressive();
    var t, gap, r := s[prev..], s[prev..index], s[index..next];
    assert t[..|gap|] == gap;
    assert t[|gap|..] == r + s[next..];
    forall i | 0 <= i < |gap|
      ensures !AtIgnoringCase(t, i, "<code")
    {
      TagShift(s, prev, i, "<code");
    }
    FirstRegion(LineStart(s, prev), t, gap, r, s[next..]);
    NextFound(MatchCodeRegion, s, prev, Found(|gap|, Hit(|r|, r)));
    assert Found(prev + |gap|, Hit(|r|, r)) == Found(index, Hit(next - index, s[index..next]));
  }

  /** The search for a region in text that starts with a gap in which no
      code tag starts and then a region finds that region. */
  lemma FirstRegion(bol: bool, t: string, gap: string, r: string, post: string)
    requires |gap| <= |t| && t[..|gap|] == gap && t[|gap|..] == r + post
    requires forall i | 0 <= i < |gap| :: !AtIgnoringCase(t, i, "<code")
    requires IsRegion(r)
    ensures FindFirst(MatchCodeRegion, bol, t) == Some(Found(|gap|, Hit(|r|, r)))
  {
    InlineProgressive();
    var n := |gap|;
    forall i | 0 <= i < n
      ensures AttemptAt(MatchCodeRegion, bol, t, i).None?
    {
      TagAt(t, i, "<code");
    }
    RegionMatch(BolAfter(bol, t, n), r, post);
    MatchAtOffset(MatchCodeRegion, bol, t, n, Hit(|r|, r));
  }

  /** A region after a gap in which no code tag starts: the gap is
      rendered only when it is the text before the first region or at
      least two characters long, and the region is copied verbatim. */
  lemma InlineRegion(s: string, prev: nat, index: nat, next: nat)
    requires prev <= index <= next <= |s|
    requires NoTagBetween(s, prev, index) && IsRegion(s[index..next])
    ensures InlineFrom(s, prev)
            == (if (prev == 0 && prev < index) || prev + 2 <= index then Backticks(s[prev..index]) else "")
               + s[index..next] + InlineFrom(s, next)
  {
    InlineProgressive();
    NextAt(s, prev, index, next);
    RenderStep(MatchCodeRegion, s, prev, index, next);
  }

  /** Two regions one character apart, whatever the character: it is not
      pushed, so the regions end up side by side. */
  lemma AdjacentRegions(r1: string, c: char, r2: string)
    requires IsRegion(r1) && IsRegion(r2)
    ensures InlineCodeOf(r1 + [c] + r2) == r1 + r2
  {
    var s := r1 + [c] + r2;
    assert s[0..|r1|] == r1;
    assert s[|r1|..|r1| + 1] == [c];
    assert s[|r1| + 1..|s|] == r2;
    AdjacentAt(s, |r1|, |r1| + 1);
  }

  lemma AdjacentAt(s: string, a: nat, b: nat)
    requires 0 < a && b == a + 1 && b <= |s|
    requires IsRegion(s[0..a]) && IsRegion(s[b..|s|])
    ensures InlineCodeOf(s) == s[0..a] + s[b..|s|]
  {
    assert s[0..0] == [];
    InlineRegion(s, 0, 0, a);
    TagFirst(s[b..|s|], 0, "<code");
    assert s[b..|s|][0] == s[b];
    LowerKeeps(s[b]);
    NoTagAt(s, a, "<code", 1);
    InlineRegion(s, a, b, |s|);
    assert s[|s|..] == [];
    InlineRest(s, |s|);
    InlineProgressive();
    assert Backticks([]) == [];
    Chain(InlineFrom(s, 0), s[0..a], InlineFrom(s, a), s[b..|s|], InlineFrom(s, |s|));
  }

  /** Two steps of output, each adding nothing but a region. */
  lemma Chain(x: string, p: string, y: string, q: string, z: string)
    requires x == "" + p + y && y == "" + q + z && z == ""
    ensures x == p + q
  {
  }
}
