/** Blocks: `str.split('\n\n')` as used by `parseBlock`. The pieces are
    the text between leftmost, non-overlapping blank-line separators. */
module Split {
  import opened Text

  /** A separator "\n\n" starts at offset i of s. */
  predicate BreakAt(s: string, i: nat) {
    i + 1 < |s| && s[i] == '\n' && s[i + 1] == '\n'
  }

  /** s holds no separator. */
  predicate NoBreak(s: string) {
    forall i | 0 <= i < |s| :: !BreakAt(s, i)
  }

  /** The pieces of `s.split('\n\n')`: scanning from the left, a separator
      ends the current piece; the empty text has one empty piece. */
  function SplitBlocks(s: string): (r: seq<string>)
    ensures |r| >= 1
    decreases |s|
  {
    if |s| < 2 then [s]
    else if s[0] == '\n' && s[1] == '\n' then [""] + SplitBlocks(s[2..])
    else
      var r := SplitBlocks(s[1..]);
      [[s[0]] + r[0]] + r[1..]
  }

  /** A piece that may stand before a separator: no separator inside it,
      and no line break at its end (the separator would start there). */
  predicate Inner(b: string) {
    NoBreak(b) && (b == [] || b[|b| - 1] != '\n')
  }

  /** What split can return: every piece without separator, every piece
      but the last one an inner piece. */
  predicate Pieces(bs: seq<string>) {
    |bs| >= 1
    && (forall k | 0 <= k < |bs| :: NoBreak(bs[k]))
    && (forall k | 0 <= k < |bs| - 1 :: Inner(bs[k]))
  }

  /** Putting a character in front of the first piece of a join. */
  lemma JoinFront(c: char, xs: seq<string>, sep: string)
    requires xs != []
    ensures Join([[c] + xs[0]] + xs[1..], sep) == [c] + Join(xs, sep)
  {
    var ys := [[c] + xs[0]] + xs[1..];
    if |xs| > 1 {
      assert ys[1..] == xs[1..];
      assert Join(ys, sep) == [c] + xs[0] + sep + Join(xs[1..], sep);
    }
  }

  /** Joining the pieces with the separator gives back the text. */
  lemma {:induction false} SplitJoin(s: string)
    ensures Join(SplitBlocks(s), "\n\n") == s
    decreases |s|
  {
    if |s| < 2 {
    } else if s[0] == '\n' && s[1] == '\n' {
      var r := SplitBlocks(s[2..]);
      SplitJoin(s[2..]);
      assert ([""] + r)[1..] == r;
      assert s == "\n\n" + s[2..];
    } else {
      var r := SplitBlocks(s[1..]);
      SplitJoin(s[1..]);
      JoinFront(s[0], r, "\n\n");
      assert s == [s[0]] + s[1..];
    }
  }

  /** A separator in s[1..] is one in s, one offset further. */
  lemma BreakTail(s: string, i: nat)
    requires 1 <= |s|
    ensures BreakAt(s[1..], i) == BreakAt(s, i + 1)
  {
  }

  /** The pieces split returns have the shape of Pieces. */
  lemma {:induction false} SplitPieces(s: string)
    ensures Pieces(SplitBlocks(s))
    decreases |s|
  {
    if |s| < 2 {
      assert NoBreak(s);
    } else if s[0] == '\n' && s[1] == '\n' {
      SplitPieces(s[2..]);
      var r := SplitBlocks(s[2..]);
      assert ([""] + r)[0] == "";
      assert forall k | 1 <= k < |r| + 1 :: ([""] + r)[k] == r[k - 1];
    } else {
      SplitPieces(s[1..]);
      var r := SplitBlocks(s[1..]);
      var h := [s[0]] + r[0];
      var out := [h] + r[1..];
      assert forall k | 1 <= k < |out| :: out[k] == r[k];
      assert NoBreak(h) by {
        forall i | 0 <= i < |h|
          ensures !BreakAt(h, i)
        {
          if i == 0 {
            if 1 < |h| {
              assert h[1] == r[0][0];
              if h[0] == '\n' && h[1] == '\n' {
                PieceStart(s, r);
              }
            }
          } else {
            assert h[1..] == r[0];
            BreakTail(h, i - 1);
          }
        }
      }
      if 1 < |r| {
        if r[0] == [] {
          PieceEmptyStart(s, r);
        } else {
          assert h[|h| - 1] == r[0][|r[0]| - 1];
        }
      }
    }
  }

  /** When s does not start with a separator, the second character of s
      does not complete one with the first piece of s[1..]. */
  lemma PieceStart(s: string, r: seq<string>)
    requires 2 <= |s| && !(s[0] == '\n' && s[1] == '\n')
    requires r == SplitBlocks(s[1..]) && 0 < |r[0]|
    ensures !(s[0] == '\n' && r[0][0] == '\n')
  {
    SplitFirst(s[1..]);
  }

  /** When s does not start with a separator and the first piece of s[1..]
      is empty while more pieces follow, s[0] is not a line break. */
  lemma PieceEmptyStart(s: string, r: seq<string>)
    requires 2 <= |s| && !(s[0] == '\n' && s[1] == '\n')
    requires r == SplitBlocks(s[1..]) && 1 < |r| && r[0] == []
    ensures s[0] != '\n'
  {
    SplitFirst(s[1..]);
  }

  /** The first piece is a prefix of the text; when it is not the only
      piece, a separator follows it. */
  lemma {:induction false} SplitFirst(s: string)
    ensures |SplitBlocks(s)[0]| <= |s|
    ensures SplitBlocks(s)[0] == s[..|SplitBlocks(s)[0]|]
    ensures 1 < |SplitBlocks(s)| ==> BreakAt(s, |SplitBlocks(s)[0]|)
    decreases |s|
  {
    if |s| < 2 {
    } else if s[0] == '\n' && s[1] == '\n' {
    } else {
      SplitFirst(s[1..]);
      var r := SplitBlocks(s[1..]);
      assert s[..|r[0]| + 1] == [s[0]] + s[1..][..|r[0]|];
      if 1 < |r| {
        BreakTail(s, |r[0]|);
      }
    }
  }

  /** A piece without separator that ends the text is the last piece. */
  lemma {:induction false} SplitLast(b: string)
    requires NoBreak(b)
    ensures SplitBlocks(b) == [b]
    decreases |b|
  {
    if |b| >= 2 {
      assert !BreakAt(b, 0);
      forall i | 0 <= i < |b| - 1
        ensures !BreakAt(b[1..], i)
      {
        BreakTail(b, i);
      }
      SplitLast(b[1..]);
      assert [b[0]] + b[1..] == b;
    }
  }

  /** An inner piece followed by a separator is cut off as the first piece. */
  lemma {:induction false} SplitInner(b: string, rest: string)
    requires Inner(b)
    ensures SplitBlocks(b + "\n\n" + rest) == [b] + SplitBlocks(rest)
    decreases |b|
  {
    var s := b + "\n\n" + rest;
    if b == [] {
      assert s == "\n\n" + rest;
      assert s[2..] == rest;
    } else {
      var b' := b[1..];
      assert s[0] == b[0];
      assert !BreakAt(s, 0) by {
        if |b| == 1 {
          assert b[0] == b[|b| - 1];
        } else {
          assert !BreakAt(b, 0);
        }
      }
      forall i | 0 <= i < |b'|
        ensures !BreakAt(b', i)
      {
        BreakTail(b, i);
      }
      if b' != [] {
        assert b'[|b'| - 1] == b[|b| - 1];
      }
      SplitInner(b', rest);
      assert s[1..] == b' + "\n\n" + rest;
      assert [b[0]] + b' == b;
    }
  }

  /** Pieces of the shape split returns are what split returns for their
      join. */
  lemma {:induction false} JoinSplit(bs: seq<string>)
    requires Pieces(bs)
    ensures SplitBlocks(Join(bs, "\n\n")) == bs
  {
    if |bs| == 1 {
      SplitLast(bs[0]);
    } else {
      assert Pieces(bs[1..]) by {
        assert forall k | 0 <= k < |bs| - 1 :: bs[1..][k] == bs[k + 1];
      }
      JoinSplit(bs[1..]);
      assert Join(bs, "\n\n") == bs[0] + "\n\n" + Join(bs[1..], "\n\n");
      SplitInner(bs[0], Join(bs[1..], "\n\n"));
      assert [bs[0]] + bs[1..] == bs;
    }
  }
}

/** `parseBlock`: the text is split on blank lines; every block outside a
    fenced code region goes through the classifier chain, every block
    inside one is copied until a closing fence ends the region. */
module Blocks {
  import opened Text
  import opened Patterns
  import opened Split
  import opened Fences
  import opened Headers
  import opened Links

  /** A value a JavaScript condition takes as true: neither null nor the
      empty text. */
  predicate Truthy(o: Option<string>) {
    o.Some? && o.value != ""
  }

  /** What a template literal inserts for a value: null becomes "null". */
  function Str(o: Option<string>): string {
    if o.Some? then o.value else "null"
  }

  /** `parseParagraph`: the block inside a paragraph element. */
  function ParseParagraph(p: string): (r: string)
    ensures 7 <= |r| && r[..3] == "<p>" && r[3..|r| - 4] == p && r[|r| - 4..] == "</p>"
  {
    "<p>" + p + "</p>"
  }

  /** `parseList` belongs to the list module, which is not part of this
      model: the chain receives it as a parameter. */
  type ListParser = string -> Option<string>

  /** The parsers of the classifier chain. */
  datatype Classifier = CodeStart | List | Header | Images | Paragraph

  /** The chain, in the order parseBlock tries it. */
  const Chain: seq<Classifier> := [CodeStart, List, Header, Images, Paragraph]

  function Apply(c: Classifier, p: string, list: ListParser): Option<string> {
    match c
    case CodeStart => ParseCodeStart(p)
    case List => list(p)
    case Header => ParseHeader(p)
    case Images => ParseImages(p)
    case Paragraph => Some(ParseParagraph(p))
  }

  /** The accumulator of the chain and whether the block opened a code
      region that it does not close. */
  datatype Outcome = Outcome(content: Option<string>, opens: bool)

  /** One step of the chain: a truthy accumulator is kept; otherwise the
      parser runs, and an opening fence is immediately tried for a closing
      fence in the same block. */
  function ChainStep(o: Outcome, c: Classifier, p: string, list: ListParser): Outcome {
    if Truthy(o.content) then o
    else
      var parsed := Apply(c, p, list);
      if Truthy(parsed) && c == CodeStart then
        var closed := ParseCodeEnd(parsed.value);
        if !Truthy(closed) then Outcome(parsed, true) else Outcome(closed, o.opens)
      else Outcome(parsed, o.opens)
  }

  /** The rest of the chain from accumulator o. */
  function ChainFrom(o: Outcome, cs: seq<Classifier>, p: string, list: ListParser): Outcome
    decreases |cs|
  {
    if cs == [] then o else ChainFrom(ChainStep(o, cs[0], p, list), cs[1..], p, list)
  }

  /** The non-null results of the fence, header and image parsers are
      non-empty, so JavaScript takes them as true. */
  lemma ParsersVisible(p: string)
    ensures ParseCodeStart(p).Some? ==> ParseCodeStart(p).value != []
    ensures ParseCodeEnd(p).Some? ==> ParseCodeEnd(p).value != []
    ensures ParseHeader(p).Some? ==> ParseHeader(p).value != []
    ensures ParseImages(p).Some? ==> ParseImages(p).value != []
  {
    AllProgressive();
    TagsVisible();
    if ParseCodeStart(p).Some? {
      ReplaceVisible(MatchCodeStart, true, p);
    }
    if ParseCodeEnd(p).Some? {
      ReplaceVisible(MatchCodeEnd, true, p);
    }
    if ParseHeader(p).Some? {
      ReplaceVisible(MatchHeader, true, p);
    }
  }

  /** The classification of a block by priority: an opening fence first
      (with its closing fence when the block has one), then a list, a
      header, an image, and a paragraph otherwise. The result is never
      empty or null. */
  function Classified(p: string, list: ListParser): (r: Outcome)
    ensures Truthy(r.content)
  {
    ParsersVisible(p);
    match ParseCodeStart(p)
    case Some(start) =>
      ParsersVisible(start);
      (match ParseCodeEnd(start)
       case Some(closed) => Outcome(Some(closed), false)
       case None => Outcome(Some(start), true))
    case None =>
      if Truthy(list(p)) then Outcome(list(p), false)
      else if ParseHeader(p).Some? then Outcome(ParseHeader(p), false)
      else if ParseImages(p).Some? then Outcome(ParseImages(p), false)
      else Outcome(Some(ParseParagraph(p)), false)
  }

  /** The reduce over the chain is the priority classification. */
  lemma ChainPriority(p: string, list: ListParser)
    ensures ChainFrom(Outcome(None, false), Chain, p, list) == Classified(p, list)
  {
    ParsersVisible(p);
    if ParseCodeStart(p).Some? {
      ParsersVisible(ParseCodeStart(p).value);
    }
    assert Chain[1..] == [List, Header, Images, Paragraph];
    assert Chain[1..][1..] == [Header, Images, Paragraph];
    assert Chain[1..][1..][1..] == [Images, Paragraph];
    assert Chain[1..][1..][1..][1..] == [Paragraph];
  }

  /** A block opens a code region exactly when a line of it starts with a
      fence and no fence ends a line after the opening tags are put in;
      the content is then the block with its opening tags. */
  lemma OpensIff(p: string, list: ListParser)
    ensures ParseCodeStart(p).Some? <==> exists i | 0 <= i <= |p| :: OpensAt(p, i)
    ensures Classified(p, list).opens <==>
              ParseCodeStart(p).Some?
              && forall i | 0 <= i <= |ParseCodeStart(p).value| :: !ClosesAt(ParseCodeStart(p).value, i)
    ensures Classified(p, list).opens ==> Classified(p, list).content == ParseCodeStart(p)
  {
    CodeStartNull(p);
    if ParseCodeStart(p).Some? {
      CodeEndNull(ParseCodeStart(p).value);
    }
  }

  /** The accumulator of parseBlock and its code-region flag. */
  datatype State = State(out: string, open: bool)

  /** The reducer of parseBlock on block p; `more` when another block
      follows. Inside a code region a block is copied, with its closing
      fence (found by close) replaced when it has one; outside, it is
      classified (by classify). */
  function StepBy(close: string -> Option<string>, classify: string -> Outcome,
                  st: State, p: string, more: bool): State {
    var suffix := if more then "\n" else "";
    if st.open then
      var content := close(p);
      State(st.out + "\n" + (if Truthy(content) then content.value else p) + suffix, !Truthy(content))
    else
      var o := classify(p);
      State(st.out + Str(o.content) + suffix, o.opens)
  }

  /** The accumulator after the first n blocks. */
  function FoldBy(close: string -> Option<string>, classify: string -> Outcome,
                  bs: seq<string>, n: nat): State
    requires n <= |bs|
  {
    if n == 0 then State("", false)
    else StepBy(close, classify, FoldBy(close, classify, bs, n - 1), bs[n - 1], n < |bs|)
  }

  /** The chain with the list parser fixed. */
  function ClassifyWith(list: ListParser): string -> Outcome {
    p => Classified(p, list)
  }

  /** The reducer of parseBlock with the parsers of this model. */
  function BlockStep(st: State, p: string, more: bool, list: ListParser): State {
    StepBy(ParseCodeEnd, ClassifyWith(list), st, p, more)
  }

  /** The accumulator of parseBlock after the first n blocks. */
  function Fold(bs: seq<string>, n: nat, list: ListParser): State
    requires n <= |bs|
  {
    FoldBy(ParseCodeEnd, ClassifyWith(list), bs, n)
  }

  /** The result of parseBlock. */
  function ParseBlockOf(s: string, list: ListParser): string {
    var bs := SplitBlocks(s);
    Fold(bs, |bs|, list).out
  }

  /** `parseBlock`: a reduce over the blocks with the code-region flag, and
      for each block outside a region a reduce over the chain. */
  method ParseBlock(s: string, list: ListParser) returns (out: string)
    ensures out == ParseBlockOf(s, list)
  {
    var blocks := SplitBlocks(s);
    var len := |blocks|;
    var isCodeBlock := false;
    var acc := "";
    var i := 0;
    while i < len
      invariant i <= len
      invariant State(acc, isCodeBlock) == Fold(blocks, i, list)
    {
      acc, isCodeBlock := ReduceBlock(acc, isCodeBlock, blocks[i], i + 1 < len, list);
      assert FoldBy(ParseCodeEnd, ClassifyWith(list), blocks, i + 1)
             == StepBy(ParseCodeEnd, ClassifyWith(list), FoldBy(ParseCodeEnd, ClassifyWith(list), blocks, i), blocks[i], i + 1 < len);
      i := i + 1;
    }
    out := acc;
  }

  /** The reducer of parseBlock on one block: the accumulated output and
      the code-region flag before and after block p. */
  method ReduceBlock(acc: string, isCodeBlock: bool, p: string, more: bool, list: ListParser)
    returns (next: string, stillCode: bool)
    ensures State(next, stillCode) == BlockStep(State(acc, isCodeBlock), p, more, list)
  {
    var suffix := if more then "\n" else "";
    if isCodeBlock {
      var content := ParseCodeEnd(p);
      stillCode := !Truthy(content);
      next := acc + "\n" + (if Truthy(content) then content.value else p) + suffix;
    } else {
      var content, opens := ClassifyBlock(p, list);
      stillCode := opens;
      next := acc + Str(content) + suffix;
    }
  }

  /** The reduce over the chain for one block outside a code region: the
      first truthy result wins; `opens` is the code-region flag the chain
      sets when an opening fence has no closing fence in the block. */
  method ClassifyBlock(p: string, list: ListParser) returns (content: Option<string>, opens: bool)
    ensures Outcome(content, opens) == Classified(p, list)
  {
    content, opens := None, false;
    var j := 0;
    while j < |Chain|
      invariant j <= |Chain|
      invariant ChainFrom(Outcome(content, opens), Chain[j..], p, list)
                == ChainFrom(Outcome(None, false), Chain, p, list)
    {
      var parser := Chain[j];
      if !Truthy(content) {
        var parsed := Apply(parser, p, list);
        if Truthy(parsed) && parser == CodeStart {
          var parsedAndClosed := ParseCodeEnd(parsed.value);
          if !Truthy(parsedAndClosed) {
            opens := true;
            content := parsed;
          } else {
            content := parsedAndClosed;
          }
        } else {
          content := parsed;
        }
      }
      assert Chain[j..][1..] == Chain[j + 1..];
      j := j + 1;
    }
    ChainPriority(p, list);
  }

  /** The content of every block classified on its own. */
  function Contents(bs: seq<string>, list: ListParser): (r: seq<string>)
    ensures |r| == |bs|
  {
    if bs == [] then []
    else Contents(bs[..|bs| - 1], list) + [Str(Classified(bs[|bs| - 1], list).content)]
  }

  /** Before any block opens a code region, every block is classified on
      its own and the results are separated by a line break. */
  lemma {:induction false} OutsideRegions(bs: seq<string>, n: nat, list: ListParser)
    requires n <= |bs|
    requires forall k | 0 <= k < n :: !Classified(bs[k], list).opens
    ensures Fold(bs, n, list)
            == State(Join(Contents(bs[..n], list), "\n") + (if 0 < n < |bs| then "\n" else ""), false)
  {
    if n > 0 {
      OutsideRegions(bs, n - 1, list);
      var c := Str(Classified(bs[n - 1], list).content);
      assert bs[..n][..n - 1] == bs[..n - 1];
      assert Contents(bs[..n], list) == Contents(bs[..n - 1], list) + [c];
      if n > 1 {
        JoinSnoc(Contents(bs[..n - 1], list), c, "\n");
      }
    }
  }

  /** A text none of whose blocks opens a code region comes out as the
      classified blocks, one line break between consecutive ones. */
  lemma NoRegions(s: string, list: ListParser)
    requires forall k | 0 <= k < |SplitBlocks(s)| :: !Classified(SplitBlocks(s)[k], list).opens
    ensures ParseBlockOf(s, list) == Join(Contents(SplitBlocks(s), list), "\n")
  {
    var bs := SplitBlocks(s);
    OutsideRegions(bs, |bs|, list);
    assert bs[..|bs|] == bs;
  }

  lemma Regroup(a: string, j: string, x: string, suf: string)
    ensures a + "\n" + j + "\n" + "\n" + x + suf == a + "\n" + (j + "\n\n" + x) + suf
  {
    assert "\n" + "\n" == "\n\n";
  }

  /** Inside a code region, blocks without a closing fence are copied as
      they are: the blank lines between them are restored. */
  lemma RegionBody(bs: seq<string>, n: nat, m: nat, list: ListParser)
    requires n < m <= |bs| && Fold(bs, n, list).open
    requires forall k | n <= k < m :: !Truthy(ParseCodeEnd(bs[k]))
    ensures Fold(bs, m, list)
            == State(Fold(bs, n, list).out + "\n" + Join(bs[n..m], "\n\n") + (if m < |bs| then "\n" else ""), true)
  {
    RegionBodyBy(ParseCodeEnd, ClassifyWith(list), bs, n, m);
  }

  /** RegionBody for any closing-fence parser and classifier. */
  lemma {:induction false} RegionBodyBy(close: string -> Option<string>, classify: string -> Outcome,
                                        bs: seq<string>, n: nat, m: nat)
    requires n < m <= |bs| && FoldBy(close, classify, bs, n).open
    requires forall k | n <= k < m :: !Truthy(close(bs[k]))
    ensures FoldBy(close, classify, bs, m)
            == State(FoldBy(close, classify, bs, n).out + "\n" + Join(bs[n..m], "\n\n")
                     + (if m < |bs| then "\n" else ""), true)
  {
    if m == n + 1 {
      assert bs[n..m] == [bs[n]];
    } else {
      RegionBodyBy(close, classify, bs, n, m - 1);
      SliceSnoc(bs, n, m);
      JoinSnoc(bs[n..m - 1], bs[m - 1], "\n\n");
      Regroup(FoldBy(close, classify, bs, n).out, Join(bs[n..m - 1], "\n\n"), bs[m - 1],
              if m < |bs| then "\n" else "");
    }
  }

  /** A code region whose opening block is n and whose first closing fence
      is in block j ends there: its blocks are copied, the closing fence
      becomes the closing tag, and the next block is classified again. */
  lemma RegionEnd(bs: seq<string>, n: nat, j: nat, list: ListParser)
    requires n <= j < |bs| && Fold(bs, n, list).open
    requires forall k | n <= k < j :: !Truthy(ParseCodeEnd(bs[k]))
    requires Truthy(ParseCodeEnd(bs[j]))
    ensures Fold(bs, j + 1, list)
            == State(Fold(bs, n, list).out + "\n" + Join(bs[n..j] + [ParseCodeEnd(bs[j]).value], "\n\n")
                     + (if j + 1 < |bs| then "\n" else ""), false)
  {
    var closed := ParseCodeEnd(bs[j]).value;
    if j == n {
      assert bs[n..j] + [closed] == [closed];
    } else {
      RegionBody(bs, n, j, list);
      JoinSnoc(bs[n..j], closed, "\n\n");
      Regroup(Fold(bs, n, list).out, Join(bs[n..j], "\n\n"), closed, if j + 1 < |bs| then "\n" else "");
    }
  }

  /** A code region that is never closed runs to the end of the text,
      which is copied with its blank lines. */
  lemma Unterminated(s: string, n: nat, list: ListParser)
    requires n < |SplitBlocks(s)| && Fold(SplitBlocks(s), n, list).open
    requires forall k | n <= k < |SplitBlocks(s)| :: !Truthy(ParseCodeEnd(SplitBlocks(s)[k]))
    ensures ParseBlockOf(s, list)
            == Fold(SplitBlocks(s), n, list).out + "\n" + Join(SplitBlocks(s)[n..], "\n\n")
  {
    var bs := SplitBlocks(s);
    RegionBody(bs, n, |bs|, list);
    assert bs[n..|bs|] == bs[n..];
    assert Fold(bs, |bs|, list).out == Fold(bs, n, list).out + "\n" + Join(bs[n..], "\n\n") + "";
  }
}
