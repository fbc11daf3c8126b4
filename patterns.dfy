/** The regular expressions of the parser, each written out as an explicit
    matcher over a string, and the two ways `String.prototype.replace`
    applies them: every leftmost non-overlapping match (the `g` flag) or the
    first match only.

    A matcher looks at the text from the attempted position onwards, `t`,
    and at one bit of context, `bol`: whether that position starts a line.
    That bit is all a pattern anchored with `^` under the `m` flag can see
    behind it; `$` only looks ahead, inside `t`. */
module Patterns {
  import opened Text

  /** A successful match attempt: how many characters it consumes, and the
      text the replacement callback returns for it. */
  datatype Hit = Hit(len: nat, out: string)

  /** A match found by a leftmost search: where it starts and what it is. */
  datatype Found = Found(pos: nat, hit: Hit)

  /** A regular expression as a match attempt: given whether the attempted
      position starts a line and the text from there on, the match the
      engine finds at that position, if any. */
  type Matcher = (bool, string) -> Option<Hit>

  /** Every match consumes at least one character and stays inside the text. */
  ghost predicate Progressive(m: Matcher) {
    forall bol, t :: m(bol, t).Some? ==> 0 < m(bol, t).value.len <= |t|
  }

  /** The pattern has no `^`: whether the position starts a line does not matter. */
  ghost predicate Unanchored(m: Matcher) {
    forall t :: m(true, t) == m(false, t)
  }

  /** The character classes that greedy runs in the patterns range over. */
  datatype CharClass = Word | HashSign | NotLineBreak | NotCloseBracket | NotCloseParen | NotBacktick | NotGreater

  predicate InClass(k: CharClass, c: char) {
    match k
    case Word => IsWordChar(c)
    case HashSign => c == '#'
    case NotLineBreak => !IsLineTerminator(c)
    case NotCloseBracket => c != ']'
    case NotCloseParen => c != ')'
    case NotBacktick => c != '`'
    case NotGreater => c != '>'
  }

  /** End of the longest run of class-k characters that starts at i: what a
      greedy `[...]*` consumes. */
  function RunEnd(t: string, i: nat, k: CharClass): (e: nat)
    requires i <= |t|
    ensures i <= e <= |t|
    ensures forall j | i <= j < e :: InClass(k, t[j])
    ensures e == |t| || !InClass(k, t[e])
    decreases |t| - i
  {
    if i == |t| || !InClass(k, t[i]) then i else RunEnd(t, i + 1, k)
  }

  /** The run end is the only position with the two properties above. */
  lemma RunEndIs(t: string, i: nat, k: CharClass, e: nat)
    requires i <= e <= |t|
    requires forall j | i <= j < e :: InClass(k, t[j])
    requires e == |t| || !InClass(k, t[e])
    ensures RunEnd(t, i, k) == e
  {
  }

  /** A run stops where the text it is scanning stops, or at the first
      character outside its class. */
  lemma RunEndStops(t: string, u: string, i: nat, k: CharClass)
    requires i <= |t|
    requires u == [] || !InClass(k, u[0])
    ensures RunEnd(t + u, i, k) == RunEnd(t, i, k)
  {
    var e := RunEnd(t, i, k);
    assert forall j | i <= j < e :: (t + u)[j] == t[j];
    RunEndIs(t + u, i, k, e);
  }

  // ---------------------------------------------------------------------
  // Code fences

  /** Three backticks start at position i of t. */
  predicate Fence(t: string, i: nat) {
    i + 3 <= |t| && t[i] == '`' && t[i + 1] == '`' && t[i + 2] == '`'
  }

  /** The opening tag of a fenced code region, with the language class when
      the fence names one. */
  function CodeTag(lang: string): string {
    if lang == [] then "<code>" else "<code class=\"language-" + lang + "\">"
  }

  function MatchCodeStart(bol: bool, t: string): (h: Option<Hit>)
    ensures h.Some? <==> bol && Fence(t, 0)
    ensures h.Some? ==> 3 <= h.value.len <= |t|
  {
    if bol && Fence(t, 0) then
      var e := RunEnd(t, 3, Word);
      Some(Hit(e, CodeTag(t[3..e])))
    else None
  }

  /** Three backticks at i followed by a line end or the end of t (`$`
      under the multiline flag). */
  predicate FenceEnd(t: string, i: nat) {
    Fence(t, i) && (i + 3 == |t| || IsLineTerminator(t[i + 3]))
  }

  function MatchCodeEnd(bol: bool, t: string): (h: Option<Hit>)
    ensures h.Some? <==> FenceEnd(t, 0)
    ensures h.Some? ==> h.value == Hit(3, "</code>")
  {
    if FenceEnd(t, 0) then Some(Hit(3, "</code>")) else None
  }

  // ---------------------------------------------------------------------
  // Headers

  function HeaderTag(level: nat, title: string): string {
    "<h" + NatToString(level) + ">" + title + "</h" + NatToString(level) + ">"
  }

  /** A header starts here: a line-initial run of '#', one white-space
      character (a line break included), then at least one character that is
      not a line break. */
  predicate HeaderStart(bol: bool, t: string) {
    bol && 0 < |t| && t[0] == '#'
    && var h := RunEnd(t, 0, HashSign);
       h + 1 < |t| && IsSpace(t[h]) && !IsLineTerminator(t[h + 1])
  }

  function MatchHeader(bol: bool, t: string): (h: Option<Hit>)
    ensures h.Some? <==> HeaderStart(bol, t)
    ensures h.Some? ==> 0 < h.value.len <= |t|
  {
    if bol && 0 < |t| && t[0] == '#' then
      var h := RunEnd(t, 0, HashSign);
      if h < |t| && IsSpace(t[h]) then
        var e := RunEnd(t, h + 1, NotLineBreak);
        if h + 1 < e then Some(Hit(e, HeaderTag(h, t[h + 1..e]))) else None
      else None
    else None
  }

  // ---------------------------------------------------------------------
  // Bold and italic

  /** The characters allowed at either edge of an emphasised group. */
  predicate EdgeOk(c: char, italic: bool) {
    !IsSpace(c) && (italic ==> c != '*')
  }

  /** The group t[g..g+m] is a valid emphasised text closed by w stars: it
      has at least three characters, its edges are allowed, its inner
      characters are not line breaks, and w stars follow it. */
  predicate Closes(t: string, g: nat, m: nat, w: nat, italic: bool) {
    3 <= m && g + m + w <= |t|
    && EdgeOk(t[g], italic) && EdgeOk(t[g + m - 1], italic)
    && (forall j | g < j < g + m - 1 :: !IsLineTerminator(t[j]))
    && (forall j | g + m <= j < g + m + w :: t[j] == '*')
  }

  /** The lazy group: the shortest length n >= m for which the group closes. */
  function ShortestClose(t: string, g: nat, m: nat, w: nat, italic: bool): (r: Option<nat>)
    requires 3 <= m && 1 <= w
    ensures r.Some? ==> m <= r.value && Closes(t, g, r.value, w, italic)
    ensures forall n | m <= n && (r.None? || n < r.value) :: !Closes(t, g, n, w, italic)
    decreases |t| - m
  {
    if g + m + w > |t| then None
    else if Closes(t, g, m, w, italic) then Some(m)
    else ShortestClose(t, g, m + 1, w, italic)
  }

  /** Any closing length at least m bounds the shortest one, which exists. */
  lemma ShortestCloseIs(t: string, g: nat, m: nat, w: nat, italic: bool, n: nat)
    requires 3 <= m <= n && 1 <= w
    requires Closes(t, g, n, w, italic)
    requires forall k | m <= k < n :: !Closes(t, g, k, w, italic)
    ensures ShortestClose(t, g, m, w, italic) == Some(n)
  {
  }

  /** Without a star after the group start, no group closes. */
  lemma {:induction false} NoStarNoClose(t: string, g: nat, m: nat, w: nat, italic: bool)
    requires 3 <= m && 1 <= w
    requires forall n | g + m <= n < |t| :: t[n] != '*'
    ensures ShortestClose(t, g, m, w, italic).None?
    decreases |t| - m
  {
    if g + m + w <= |t| {
      assert t[g + m] != '*';
      NoStarNoClose(t, g, m + 1, w, italic);
    }
  }

  function MatchBold(bol: bool, t: string): (h: Option<Hit>)
    ensures h.Some? ==> 7 <= h.value.len <= |t|
  {
    if 2 <= |t| && t[0] == '*' && t[1] == '*' then
      match ShortestClose(t, 2, 3, 2, false)
      case Some(m) => Some(Hit(m + 4, "<strong>" + t[2..2 + m] + "</strong>"))
      case None => None
    else None
  }

  function MatchItalic(bol: bool, t: string): (h: Option<Hit>)
    ensures h.Some? ==> 5 <= h.value.len <= |t|
  {
    if 1 <= |t| && t[0] == '*' then
      match ShortestClose(t, 1, 3, 1, true)
      case Some(m) => Some(Hit(m + 2, "<i>" + t[1..1 + m] + "</i>"))
      case None => None
    else None
  }

  // ---------------------------------------------------------------------
  // Links and images

  /** A bracketed text followed by a parenthesised target; len counts the
      characters from '[' to ')' inclusive. */
  datatype Link = Link(text: string, target: string, len: nat)

  /** The reference shape of a link: "[" text "](" target ")" with a
      non-empty text free of ']' and a non-empty target free of ')'. */
  predicate IsLink(t: string, text: string, target: string) {
    && text != [] && Lacks(text, ']')
    && target != [] && Lacks(target, ')')
    && |text| + |target| + 4 <= |t|
    && t[0] == '[' && t[1..|text| + 1] == text && t[|text| + 1] == ']'
    && t[|text| + 2] == '(' && t[|text| + 3..|text| + |target| + 3] == target
    && t[|text| + |target| + 3] == ')'
  }

  /** The two greedy runs of the link pattern; neither can give back a
      character, since the character after each run is the one it excludes. */
  function MatchLink(t: string): (r: Option<Link>)
    ensures r.Some? ==> IsLink(t, r.value.text, r.value.target)
                        && r.value.len == |r.value.text| + |r.value.target| + 4
    ensures r.None? ==> forall text, target :: !IsLink(t, text, target)
  {
    if 0 < |t| && t[0] == '[' then
      var a := RunEnd(t, 1, NotCloseBracket);
      if 1 < a && a + 1 < |t| && t[a + 1] == '(' then
        var b := RunEnd(t, a + 2, NotCloseParen);
        if a + 2 < b && b < |t| then
          Some(Link(t[1..a], t[a + 2..b], b + 1))
        else
          NoLinkWhen(t, a, b);
          None
      else
        NoLinkWhen(t, a, |t|);
        None
    else None
  }

  /** A link in reference shape is exactly what the two greedy runs find. */
  lemma LinkRuns(t: string, text: string, target: string)
    requires IsLink(t, text, target)
    ensures RunEnd(t, 1, NotCloseBracket) == |text| + 1
    ensures t[|text| + 2] == '('
    ensures RunEnd(t, |text| + 3, NotCloseParen) == |text| + |target| + 3
  {
    var n := |text| + |target| + 4;
    assert forall j | 1 <= j < |text| + 1 :: t[j] == text[j - 1];
    RunEndIs(t, 1, NotCloseBracket, |text| + 1);
    assert forall j | |text| + 3 <= j < n - 1 :: t[j] == target[j - |text| - 3];
    RunEndIs(t, |text| + 3, NotCloseParen, n - 1);
  }

  /** Why the link pattern fails once one of its runs is cut short. */
  lemma NoLinkWhen(t: string, a: nat, b: nat)
    requires 0 < |t| && t[0] == '['
    requires a == RunEnd(t, 1, NotCloseBracket)
    requires 1 < a && a + 1 < |t| && t[a + 1] == '(' ==> b == RunEnd(t, a + 2, NotCloseParen) && !(a + 2 < b && b < |t|)
    requires !(1 < a && a + 1 < |t| && t[a + 1] == '(') ==> b == |t|
    ensures forall text, target :: !IsLink(t, text, target)
  {
    forall text, target | IsLink(t, text, target)
      ensures false
    {
      LinkRuns(t, text, target);
    }
  }

  /** A link in reference shape is the match the link pattern finds. */
  lemma LinkIs(t: string, text: string, target: string)
    requires IsLink(t, text, target)
    ensures MatchLink(t) == Some(Link(text, target, |text| + |target| + 4))
  {
    LinkRuns(t, text, target);
  }

  /** The text "[" text "](" target ")" followed by anything is a link. */
  lemma LinkShape(text: string, target: string, post: string)
    requires text != [] && Lacks(text, ']') && target != [] && Lacks(target, ')')
    ensures IsLink("[" + text + "](" + target + ")" + post, text, target)
  {
    var t := "[" + text + "](" + target + ")" + post;
    assert t == "[" + text + "](" + target + ")" + post;
    assert t[1..|text| + 1] == text;
    assert t[|text| + 3..|text| + |target| + 3] == target;
  }

  function AnchorTag(l: Link): string {
    "<a href=\"" + l.target + "\">" + l.text + "</a>"
  }

  function ImageTag(l: Link): string {
    "<img src=\"" + l.target + "\" alt=\"" + l.text + "\" />"
  }

  function MatchAnchor(bol: bool, t: string): (h: Option<Hit>)
    ensures h.Some? ==> 5 <= h.value.len <= |t|
  {
    match MatchLink(t)
    case Some(l) => Some(Hit(l.len, AnchorTag(l)))
    case None => None
  }

  function MatchImage(bol: bool, t: string): (h: Option<Hit>)
    ensures h.Some? ==> 6 <= h.value.len <= |t|
  {
    if 0 < |t| && t[0] == '!' then
      match MatchLink(t[1..])
      case Some(l) => Some(Hit(l.len + 1, ImageTag(l)))
      case None => None
    else None
  }

  // ---------------------------------------------------------------------
  // Inline code and code regions

  function MatchBacktick(bol: bool, t: string): (h: Option<Hit>)
    ensures h.Some? ==> 3 <= h.value.len <= |t|
  {
    if 0 < |t| && t[0] == '`' then
      var e := RunEnd(t, 1, NotBacktick);
      if 1 < e < |t| then Some(Hit(e + 1, "<code>" + t[1..e] + "</code>")) else None
    else None
  }

  /** The literal lit (lower case) occurs at i of t, ignoring ASCII letter case. */
  predicate AtIgnoringCase(t: string, i: nat, lit: string) {
    i + |lit| <= |t| && forall j | 0 <= j < |lit| :: LowerAscii(t[i + j]) == lit[j]
  }

  /** The lazy body of a code region that starts at b: the shortest length
      n' >= n after which a closing tag follows. */
  function ShortestBody(t: string, b: nat, n: nat): (r: Option<nat>)
    requires 1 <= n
    ensures r.Some? ==> n <= r.value && AtIgnoringCase(t, b + r.value, "</code>")
    ensures forall i | b + n <= i && (r.None? || i < b + r.value) :: !AtIgnoringCase(t, i, "</code>")
    decreases |t| - n
  {
    if b + n + 7 > |t| then assert |"</code>"| == 7; None
    else if AtIgnoringCase(t, b + n, "</code>") then Some(n)
    else ShortestBody(t, b, n + 1)
  }

  /** A code region: "<code", any characters but '>', '>', a non-empty body
      (line breaks allowed) and the first "</code>" after it. The whole
      region is its own output: it is copied verbatim. */
  function MatchCodeRegion(bol: bool, t: string): (h: Option<Hit>)
    ensures h.Some? ==> 13 <= h.value.len <= |t| && h.value.out == t[..h.value.len]
  {
    if AtIgnoringCase(t, 0, "<code") then
      var q := RunEnd(t, 5, NotGreater);
      if q < |t| then
        match ShortestBody(t, q + 1, 1)
        case Some(n) => Some(Hit(q + n + 8, t[..q + n + 8]))
        case None => None
      else None
    else None
  }

  // ---------------------------------------------------------------------
  // Searching and replacing

  /** Whether the position after the first n characters of t starts a line,
      given that the position before them does exactly when bol holds. */
  function BolAfter(bol: bool, t: string, n: nat): bool
    requires n <= |t|
  {
    if n == 0 then bol else IsLineTerminator(t[n - 1])
  }

  /** The match attempt of m at offset i of t. */
  function AttemptAt(m: Matcher, bol: bool, t: string, i: nat): Option<Hit>
    requires i <= |t|
  {
    m(BolAfter(bol, t, i), t[i..])
  }

  /** Every match attempt at an offset below n fails. */
  ghost predicate NoMatchBefore(m: Matcher, bol: bool, t: string, n: nat)
    requires n <= |t|
  {
    forall i | 0 <= i < n :: AttemptAt(m, bol, t, i).None?
  }

  /** The leftmost match of m in t, at an offset from the start of t: the
      engine tries every position from left to right, the end included. */
  function FindFirst(m: Matcher, bol: bool, t: string): (f: Option<Found>)
    decreases |t|
  {
    match m(bol, t)
    case Some(h) => Some(Found(0, h))
    case None =>
      if t == [] then None
      else match FindFirst(m, IsLineTerminator(t[0]), t[1..])
        case None => None
        case Some(f) => Some(Found(f.pos + 1, f.hit))
  }

  /** `replace` with the `g` flag: every leftmost non-overlapping match is
      replaced, the text between matches is copied. */
  function ReplaceAll(m: Matcher, bol: bool, t: string): string
    requires Progressive(m)
    decreases |t|
  {
    match m(bol, t)
    case Some(h) => h.out + ReplaceAll(m, BolAfter(bol, t, h.len), t[h.len..])
    case None => if t == [] then [] else [t[0]] + ReplaceAll(m, IsLineTerminator(t[0]), t[1..])
  }

  /** `replace` without the `g` flag: only the leftmost match is replaced. */
  function ReplaceFirst(m: Matcher, bol: bool, t: string): string
    requires Progressive(m)
    decreases |t|
  {
    match m(bol, t)
    case Some(h) => h.out + t[h.len..]
    case None => if t == [] then [] else [t[0]] + ReplaceFirst(m, IsLineTerminator(t[0]), t[1..])
  }

  // ---------------------------------------------------------------------
  // Laws of search and replace

  /** Attempts in the tail of t are attempts in t, one offset further. */
  lemma AttemptInTail(m: Matcher, bol: bool, t: string, i: nat)
    requires t != [] && i <= |t| - 1
    ensures AttemptAt(m, IsLineTerminator(t[0]), t[1..], i) == AttemptAt(m, bol, t, i + 1)
  {
    assert t[1..][i..] == t[i + 1..];
  }

  lemma NoMatchInTail(m: Matcher, bol: bool, t: string, n: nat)
    requires 0 < n <= |t| && NoMatchBefore(m, bol, t, n)
    ensures AttemptAt(m, bol, t, 0) == m(bol, t)
    ensures NoMatchBefore(m, IsLineTerminator(t[0]), t[1..], n - 1)
  {
    assert t[0..] == t;
    forall i | 0 <= i < n - 1
      ensures AttemptAt(m, IsLineTerminator(t[0]), t[1..], i).None?
    {
      AttemptInTail(m, bol, t, i);
    }
  }

  /** The text after the first character, seen from the rest of t. */
  lemma TailFrom(bol: bool, t: string, n: nat)
    requires 0 < n <= |t|
    ensures t[1..][n - 1..] == t[n..]
    ensures BolAfter(IsLineTerminator(t[0]), t[1..], n - 1) == BolAfter(bol, t, n)
  {
  }

  /** A first character copied in front of a copied stretch and the rest. */
  lemma CopyFront(t: string, n: nat, tail: string, x: string, whole: string)
    requires 0 < n <= |t| && whole == [t[0]] + tail && tail == t[1..][..n - 1] + x
    ensures whole == t[..n] + x
  {
    assert [t[0]] + t[1..][..n - 1] == t[..n];
  }

  /** Replacing every match copies a stretch without matches verbatim. */
  lemma {:induction false} ReplaceAllSkips(m: Matcher, bol: bool, t: string, n: nat)
    requires Progressive(m) && n <= |t| && NoMatchBefore(m, bol, t, n)
    ensures ReplaceAll(m, bol, t) == t[..n] + ReplaceAll(m, BolAfter(bol, t, n), t[n..])
    decreases n
  {
    if n == 0 {
      assert t[..0] + t == t;
    } else {
      NoMatchInTail(m, bol, t, n);
      ReplaceAllSkips(m, IsLineTerminator(t[0]), t[1..], n - 1);
      TailFrom(bol, t, n);
      CopyFront(t, n, ReplaceAll(m, IsLineTerminator(t[0]), t[1..]),
                ReplaceAll(m, BolAfter(bol, t, n), t[n..]), ReplaceAll(m, bol, t));
    }
  }

  /** Replacing the first match copies a stretch without matches verbatim. */
  lemma {:induction false} ReplaceFirstSkips(m: Matcher, bol: bool, t: string, n: nat)
    requires Progressive(m) && n <= |t| && NoMatchBefore(m, bol, t, n)
    ensures ReplaceFirst(m, bol, t) == t[..n] + ReplaceFirst(m, BolAfter(bol, t, n), t[n..])
    decreases n
  {
    if n == 0 {
      assert t[..0] + t == t;
    } else {
      NoMatchInTail(m, bol, t, n);
      ReplaceFirstSkips(m, IsLineTerminator(t[0]), t[1..], n - 1);
      TailFrom(bol, t, n);
      CopyFront(t, n, ReplaceFirst(m, IsLineTerminator(t[0]), t[1..]),
                ReplaceFirst(m, BolAfter(bol, t, n), t[n..]), ReplaceFirst(m, bol, t));
    }
  }

  /** The search passes over a stretch without matches. */
  lemma {:induction false} FindFirstSkips(m: Matcher, bol: bool, t: string, n: nat)
    requires n <= |t| && NoMatchBefore(m, bol, t, n)
    ensures FindFirst(m, bol, t) ==
      match FindFirst(m, BolAfter(bol, t, n), t[n..])
      case None => None
      case Some(f) => Some(Found(n + f.pos, f.hit))
    decreases n
  {
    if n == 0 {
      assert t[0..] == t;
    } else {
      NoMatchInTail(m, bol, t, n);
      FindFirstSkips(m, IsLineTerminator(t[0]), t[1..], n - 1);
      assert t[1..][n - 1..] == t[n..];
      assert BolAfter(IsLineTerminator(t[0]), t[1..], n - 1) == BolAfter(bol, t, n);
    }
  }

  /** The search result is the leftmost successful attempt: every attempt
      before it fails, and when there is none every attempt fails. */
  lemma {:induction false} FindFirstLeftmost(m: Matcher, bol: bool, t: string)
    ensures match FindFirst(m, bol, t)
      case Some(f) => f.pos <= |t| && NoMatchBefore(m, bol, t, f.pos)
                      && AttemptAt(m, bol, t, f.pos) == Some(f.hit)
      case None => NoMatchBefore(m, bol, t, |t|) && AttemptAt(m, bol, t, |t|).None?
    decreases |t|
  {
    assert t[0..] == t;
    if m(bol, t).None? && t != [] {
      var bol' := IsLineTerminator(t[0]);
      FindFirstLeftmost(m, bol', t[1..]);
      var e := match FindFirst(m, bol', t[1..]) case Some(f) => f.pos case None => |t| - 1;
      forall i | 0 <= i <= e
        ensures AttemptAt(m, bol, t, i + 1) == AttemptAt(m, bol', t[1..], i)
      {
        AttemptInTail(m, bol, t, i);
      }
      assert forall i | 0 <= i < e + 1 :: AttemptAt(m, bol, t, i).None? by {
        forall i | 0 <= i < e + 1
          ensures AttemptAt(m, bol, t, i).None?
        {
          if i > 0 {
            assert AttemptAt(m, bol, t, i) == AttemptAt(m, bol', t[1..], i - 1);
          }
        }
      }
    }
  }

  /** Text whose attempts all fail is left as it is by either kind of
      replace, and the search finds nothing in it. */
  lemma ReplaceNothing(m: Matcher, bol: bool, t: string)
    requires Progressive(m) && NoMatchBefore(m, bol, t, |t|)
    ensures ReplaceAll(m, bol, t) == t
    ensures ReplaceFirst(m, bol, t) == t
    ensures FindFirst(m, bol, t).None?
  {
    ReplaceAllSkips(m, bol, t, |t|);
    ReplaceFirstSkips(m, bol, t, |t|);
    FindFirstSkips(m, bol, t, |t|);
    assert t[..|t|] == t;
  }

  /** Every replacement m produces is non-empty. */
  ghost predicate Visible(m: Matcher) {
    forall bol, t :: m(bol, t).Some? ==> m(bol, t).value.out != []
  }

  /** A replace by a pattern with non-empty replacements gives non-empty
      text once there was something to replace or to copy. */
  lemma ReplaceVisible(m: Matcher, bol: bool, t: string)
    requires Progressive(m) && Visible(m)
    requires FindFirst(m, bol, t).Some?
    ensures ReplaceAll(m, bol, t) != []
    ensures ReplaceFirst(m, bol, t) != []
  {
  }

  /** The fence and header patterns replace by non-empty tags. */
  lemma TagsVisible()
    ensures Visible(MatchCodeStart) && Visible(MatchCodeEnd) && Visible(MatchHeader)
  {
  }

  /** Every successful attempt of m starts with the character c. */
  ghost predicate Leads(m: Matcher, c: char) {
    forall bol, t :: m(bol, t).Some? ==> 0 < |t| && t[0] == c
  }

  /** Text that lacks the leading character of a pattern holds no match. */
  lemma NoMatchLacking(m: Matcher, c: char, bol: bool, t: string, n: nat)
    requires Leads(m, c) && n <= |t| && Lacks(t[..n], c)
    ensures NoMatchBefore(m, bol, t, n)
  {
    forall i | 0 <= i < n
      ensures AttemptAt(m, bol, t, i).None?
    {
      assert t[i..][0] == t[..n][i];
    }
  }

  /** Every pattern of the parser consumes at least one character. */
  lemma AllProgressive()
    ensures Progressive(MatchCodeStart) && Progressive(MatchCodeEnd) && Progressive(MatchHeader)
    ensures Progressive(MatchBold) && Progressive(MatchItalic) && Progressive(MatchAnchor)
    ensures Progressive(MatchImage) && Progressive(MatchBacktick) && Progressive(MatchCodeRegion)
  {
  }

  /** The two patterns of the inline-code stage consume what they match. */
  lemma InlineProgressive()
    ensures Progressive(MatchCodeRegion) && Progressive(MatchBacktick)
  {
  }

  /** The first character of every match of each pattern. */
  lemma AllLead()
    ensures Leads(MatchCodeStart, '`') && Leads(MatchCodeEnd, '`') && Leads(MatchHeader, '#')
    ensures Leads(MatchBold, '*') && Leads(MatchItalic, '*') && Leads(MatchAnchor, '[')
    ensures Leads(MatchImage, '!') && Leads(MatchBacktick, '`') && Leads(MatchCodeRegion, '<')
  {
    forall bol, t | MatchCodeRegion(bol, t).Some?
      ensures 0 < |t| && t[0] == '<'
    {
      assert LowerAscii(t[0 + 0]) == "<code"[0];
    }
  }

  /** Every pattern without `^` ignores the line-start bit. */
  lemma AllUnanchored()
    ensures Unanchored(MatchCodeEnd) && Unanchored(MatchBold) && Unanchored(MatchItalic)
    ensures Unanchored(MatchAnchor) && Unanchored(MatchImage) && Unanchored(MatchBacktick)
    ensures Unanchored(MatchCodeRegion)
  {
  }

  /** For a pattern without `^`, the line-start bit at the start of the text
      changes neither search nor replace. */
  lemma UnanchoredStart(m: Matcher, t: string)
    requires Progressive(m) && Unanchored(m)
    ensures ReplaceAll(m, true, t) == ReplaceAll(m, false, t)
    ensures ReplaceFirst(m, true, t) == ReplaceFirst(m, false, t)
    ensures FindFirst(m, true, t) == FindFirst(m, false, t)
  {
    assert m(true, t) == m(false, t);
  }

  /** The leftmost match, found at offset n, is replaced by every kind of
      replace, and the search reports it. */
  lemma MatchAtOffset(m: Matcher, bol: bool, t: string, n: nat, h: Hit)
    requires Progressive(m) && n <= |t| && NoMatchBefore(m, bol, t, n)
    requires AttemptAt(m, bol, t, n) == Some(h)
    ensures 0 < h.len && n + h.len <= |t|
    ensures ReplaceAll(m, bol, t) == t[..n] + h.out + ReplaceAll(m, BolAfter(bol, t, n + h.len), t[n + h.len..])
    ensures ReplaceFirst(m, bol, t) == t[..n] + h.out + t[n + h.len..]
    ensures FindFirst(m, bol, t) == Some(Found(n, h))
  {
    ReplaceAllSkips(m, bol, t, n);
    ReplaceFirstSkips(m, bol, t, n);
    FindFirstSkips(m, bol, t, n);
    var u := t[n..];
    assert u[h.len..] == t[n + h.len..];
    assert BolAfter(BolAfter(bol, t, n), u, h.len) == BolAfter(bol, t, n + h.len);
  }

  /** A match of an unanchored pattern right after text without its
      leading character is the first replacement. */
  lemma SpanAfter(m: Matcher, c: char, pre: string, u: string, h: Hit)
    requires Progressive(m) && Unanchored(m) && Leads(m, c) && Lacks(pre, c)
    requires m(true, u) == Some(h)
    ensures h.len <= |u|
    ensures ReplaceAll(m, true, pre + u) == pre + h.out + ReplaceAll(m, true, u[h.len..])
  {
    var s := pre + u;
    assert s[..|pre|] == pre && s[|pre|..] == u;
    NoMatchLacking(m, c, true, s, |pre|);
    assert AttemptAt(m, true, s, |pre|) == Some(h);
    SpanAt(m, pre, u, h);
    AnyStart(m, BolAfter(true, s, |pre| + h.len), u[h.len..]);
  }

  /** A match right after a stretch without matches is the first
      replacement. */
  lemma SpanAt(m: Matcher, pre: string, u: string, h: Hit)
    requires Progressive(m) && NoMatchBefore(m, true, pre + u, |pre|)
    requires AttemptAt(m, true, pre + u, |pre|) == Some(h)
    ensures h.len <= |u|
    ensures ReplaceAll(m, true, pre + u)
            == pre + h.out + ReplaceAll(m, BolAfter(true, pre + u, |pre| + h.len), u[h.len..])
  {
    MatchAtOffset(m, true, pre + u, |pre|, h);
    Halves(pre, u, h.len);
  }

  /** The two halves of a concatenation, and a suffix of the second. */
  lemma Halves(a: string, b: string, k: nat)
    requires k <= |b|
    ensures (a + b)[..|a|] == a && (a + b)[|a| + k..] == b[k..]
  {
  }

  /** An unanchored pattern replaces the same way at a line start or not. */
  lemma AnyStart(m: Matcher, b: bool, t: string)
    requires Progressive(m) && Unanchored(m)
    ensures ReplaceAll(m, b, t) == ReplaceAll(m, true, t)
  {
    UnanchoredStart(m, t);
  }

  /** The laws of the bold, italic and anchor patterns that the span
      lemmas use, one pattern at a time. */
  lemma BoldLaws()
    ensures Progressive(MatchBold) && Unanchored(MatchBold) && Leads(MatchBold, '*')
  {
    AllProgressive();
    AllUnanchored();
    AllLead();
  }

  lemma ItalicLaws()
    ensures Progressive(MatchItalic) && Unanchored(MatchItalic) && Leads(MatchItalic, '*')
  {
    AllProgressive();
    AllUnanchored();
    AllLead();
  }

  lemma AnchorLaws()
    ensures Progressive(MatchAnchor) && Unanchored(MatchAnchor) && Leads(MatchAnchor, '[')
  {
    AllProgressive();
    AllUnanchored();
    AllLead();
  }

  lemma BacktickLaws()
    ensures Progressive(MatchBacktick) && Unanchored(MatchBacktick) && Leads(MatchBacktick, '`')
  {
    AllProgressive();
    AllUnanchored();
    AllLead();
  }
}
