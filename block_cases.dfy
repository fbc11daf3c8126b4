/** Fenced code inside one block: the shape the repository's examples use,
    with the closing fence at the end of the last code line, and the shape
    with the closing fence on a line of its own. */
module BlockCases {
  import opened Text
  import opened Patterns
  import opened Lines
  import opened Fences
  import opened Split
  import opened Blocks

  /** A language name after an opening fence: word characters only. */
  predicate IsLanguage(lang: string) {
    forall i | 0 <= i < |lang| :: IsWordChar(lang[i])
  }

  /** A code body for the block shape below: no backtick, and a last
      character that does not end a line. */
  predicate IsBody(body: string) {
    body != [] && Lacks(body, '`') && !IsLineTerminator(body[|body| - 1])
  }

  /** Behind the opening fence, a body and a closing fence glued to its
      last line hold no line-initial fence. */
  lemma NoOpenInBody(bol: bool, rest: string, body: string)
    requires IsBody(body) && rest == "\n" + body + "```"
    ensures NoMatchBefore(MatchCodeStart, bol, rest, |rest|)
  {
    forall i | 0 <= i < |rest|
      ensures AttemptAt(MatchCodeStart, bol, rest, i).None?
    {
      if i == 0 {
        assert rest[0..][0] == '\n';
      } else if i <= |body| {
        assert rest[i..][0] == body[i - 1];
      } else if i == |body| + 1 {
        assert rest[i - 1] == body[|body| - 1];
      }
    }
  }

  /** A match at the start of the text is replaced first. */
  lemma LeadingMatch(m: Matcher, bol: bool, t: string, h: Hit)
    requires Progressive(m) && m(bol, t) == Some(h)
    ensures h.len <= |t|
    ensures ReplaceAll(m, bol, t) == h.out + ReplaceAll(m, BolAfter(bol, t, h.len), t[h.len..])
    ensures FindFirst(m, bol, t) == Some(Found(0, h))
  {
  }

  /** The opening fence of the block and its language are one match. */
  lemma OpeningMatch(lang: string, body: string, p: string)
    requires IsLanguage(lang) && p == "```" + lang + "\n" + body + "```"
    ensures MatchCodeStart(true, p) == Some(Hit(3 + |lang|, CodeTag(lang)))
    ensures p[3 + |lang|..] == "\n" + body + "```"
  {
    var e := 3 + |lang|;
    assert forall j | 3 <= j < e :: p[j] == lang[j - 3];
    assert p[e] == '\n';
    RunEndIs(p, 3, Word, e);
    assert p[3..e] == lang;
  }

  lemma Regroup(a: string, rest: string, b: string, c: string)
    requires rest == "\n" + b + c
    ensures a + rest == a + "\n" + b + c
  {
  }

  /** parseCodeStart on the block: the opening fence and its language
      become the opening tag, the rest is kept. */
  lemma FencedStart(lang: string, body: string)
    requires IsLanguage(lang) && IsBody(body)
    ensures ParseCodeStart("```" + lang + "\n" + body + "```") == Some(CodeTag(lang) + "\n" + body + "```")
  {
    AllProgressive();
    var p := "```" + lang + "\n" + body + "```";
    var h := Hit(3 + |lang|, CodeTag(lang));
    OpeningMatch(lang, body, p);
    LeadingMatch(MatchCodeStart, true, p, h);
    var rest := p[h.len..];
    var bol := BolAfter(true, p, h.len);
    NoOpenInBody(bol, rest, body);
    ReplaceNothing(MatchCodeStart, bol, rest);
    Regroup(CodeTag(lang), rest, body, "```");
  }

  /** parseCodeEnd on text whose only backticks are a final fence. */
  lemma FinalClose(pre: string)
    requires Lacks(pre, '`')
    ensures ParseCodeEnd(pre + "```") == Some(pre + "</code>")
  {
    var p := pre + "```";
    forall j | 0 <= j < |pre|
      ensures !ClosesAt(p, j)
    {
      assert p[j] == pre[j];
    }
    CodeEndFirst(p, |pre|);
    assert p[..|pre|] == pre;
    assert p[|pre| + 3..] == [];
    assert pre + "</code>" + [] == pre + "</code>";
  }

  /** The opening tag has no backtick. */
  lemma TagLacksBacktick(lang: string)
    requires IsLanguage(lang)
    ensures Lacks(CodeTag(lang), '`')
  {
    var pre := "<code class=\"language-";
    if lang != [] {
      assert CodeTag(lang) == pre + lang + "\">";
      assert forall i | |pre| <= i < |pre| + |lang| :: CodeTag(lang)[i] == lang[i - |pre|];
    }
  }

  /** A block that opens a fence, optionally names a language, and ends
      with a closing fence glued to its last code line is one closed code
      element, and the flag stays closed. */
  lemma FencedBlock(lang: string, body: string, list: ListParser)
    requires IsLanguage(lang) && IsBody(body)
    ensures Classified("```" + lang + "\n" + body + "```", list)
            == Outcome(Some(CodeTag(lang) + "\n" + body + "</code>"), false)
  {
    FencedStart(lang, body);
    var pre := CodeTag(lang) + "\n" + body;
    TagLacksBacktick(lang);
    assert Lacks(pre, '`') by {
      var t := CodeTag(lang);
      assert forall i | |t| + 1 <= i < |pre| :: pre[i] == body[i - |t| - 1];
    }
    assert CodeTag(lang) + "\n" + body + "```" == pre + "```";
    FinalClose(pre);
  }

  /** The join of three lines. */
  lemma JoinThree(a: string, b: string, c: string)
    ensures Join([a, b, c], "\n") == a + "\n" + b + "\n" + c
  {
    assert [a, b, c][1..] == [b, c];
    assert [a, b, c][1..][1..] == [c];
    assert Join([b, c], "\n") == b + "\n" + c;
    assert a + "\n" + (b + "\n" + c) == a + "\n" + b + "\n" + c;
  }

  /** Three lines joined, grouped around the middle one. */
  lemma JoinAround(a: string, x: string, b: string)
    ensures Join([a, x, b], "\n") == (a + "\n") + x + ("\n" + b)
  {
    JoinThree(a, x, b);
  }

  /** Line by line, both fence lines become opening tags and the middle
      line is kept. */
  lemma FenceLines(x: string)
    requires SingleLine(x) && Lacks(x, '`')
    ensures MapLines(MatchCodeStart, ["```", x, "```"]) == ["<code>", x, "<code>"]
  {
    RunEndIs("```", 3, Word, 3);
    assert OpenFenceLine("```") == "<code>";
    assert !Fence(x, 0) by {
      if 0 < |x| {
        assert x[0] != '`';
      }
    }
  }

  /** parseCodeStart on a block whose first and last lines are fences:
      both become opening tags. */
  lemma BothFencesOpen(x: string)
    requires SingleLine(x) && Lacks(x, '`')
    ensures ParseCodeStart("```\n" + x + "\n```") == Some("<code>\n" + x + "\n<code>")
  {
    var lines := ["```", x, "```"];
    assert SingleLine("```");
    CodeStartLines(lines, 0);
    FenceLines(x);
    JoinAround("```", x, "```");
    JoinAround("<code>", x, "<code>");
    assert ("```" + "\n") + x + ("\n" + "```") == "```\n" + x + "\n```";
    assert ("<code>" + "\n") + x + ("\n" + "<code>") == "<code>\n" + x + "\n<code>";
  }

  /** The fence pattern has a `g` flag and only needs a line start, so a
      closing fence on a line of its own is taken for a second opening
      fence: the block opens a code region that it does not close. */
  lemma OwnLineClosingFence(x: string, list: ListParser)
    requires SingleLine(x) && Lacks(x, '`')
    ensures Classified("```\n" + x + "\n```", list) == Outcome(Some("<code>\n" + x + "\n<code>"), true)
  {
    AllProgressive();
    AllLead();
    BothFencesOpen(x);
    var start := "<code>\n" + x + "\n<code>";
    assert Lacks(start, '`') by {
      assert forall i | 7 <= i < 7 + |x| :: start[i] == x[i - 7];
    }
    assert start[..|start|] == start;
    NoMatchLacking(MatchCodeEnd, '`', true, start, |start|);
    ReplaceNothing(MatchCodeEnd, true, start);
  }

  /** The join of two lines. */
  lemma JoinTwo(a: string, b: string)
    ensures Join([a, b], "\n") == a + "\n" + b
  {
    assert [a, b][1..] == [b];
  }

  /** Line by line, a fence line becomes an opening tag and a line that
      starts with a single backtick is kept. */
  lemma FenceThenLine(line: string)
    requires 2 <= |line| && line[0] == '`' && line[1] != '`'
    ensures MapLines(MatchCodeStart, ["```", line]) == ["<code>", line]
  {
    RunEndIs("```", 3, Word, 3);
    assert OpenFenceLine("```") == "<code>";
    assert !Fence(line, 0);
  }

  /** parseCodeStart on a block that opens a fence and then holds one line
      that starts with a single backtick: the fence becomes an opening tag
      and the line is kept. */
  lemma UnclosedStart(y: string)
    requires y != [] && SingleLine(y) && Lacks(y, '`')
    ensures ParseCodeStart("```\n`" + y + "`") == Some("<code>\n`" + y + "`")
  {
    var line := "`" + y + "`";
    assert SingleLine(line) by {
      assert forall i | 1 <= i < |line| - 1 :: line[i] == y[i - 1];
    }
    assert line[1] == y[0];
    assert SingleLine("```");
    CodeStartLines(["```", line], 0);
    FenceThenLine(line);
    JoinTwo("```", line);
    JoinTwo("<code>", line);
    assert "```" + "\n" + line == "```\n`" + y + "`";
    assert "<code>" + "\n" + line == "<code>\n`" + y + "`";
  }

  /** No fence at all follows the opening tag of that block. */
  lemma UnclosedNoEnd(y: string)
    requires y != [] && Lacks(y, '`')
    ensures ParseCodeEnd("<code>\n`" + y + "`").None?
  {
    var start := "<code>\n`" + y + "`";
    forall i | 0 <= i <= |start|
      ensures !ClosesAt(start, i)
    {
      if i == 7 {
        assert start[8] == y[0];
      } else if 8 <= i < 8 + |y| {
        assert start[i] == y[i - 8];
      }
    }
    CodeEndNull(start);
  }

  /** A block that opens a fence and never closes it is copied with the
      fence rewritten, and the flag stays open: parseBlock's output is the
      opening tag followed by the rest of the block, untouched. */
  lemma UnclosedFence(y: string, list: ListParser)
    requires y != [] && SingleLine(y) && Lacks(y, '`')
    ensures Classified("```\n`" + y + "`", list) == Outcome(Some("<code>\n`" + y + "`"), true)
    ensures ParseBlockOf("```\n`" + y + "`", list) == "<code>\n`" + y + "`"
  {
    var p := "```\n`" + y + "`";
    UnclosedStart(y);
    UnclosedNoEnd(y);
    assert NoBreak(p) by {
      forall i | 0 <= i < |p|
        ensures !BreakAt(p, i)
      {
        if i == 3 {
          assert p[4] == '`';
        } else if 5 <= i < 5 + |y| {
          assert p[i] == y[i - 5];
        }
      }
    }
    SplitLast(p);
    assert FoldBy(ParseCodeEnd, ClassifyWith(list), [p], 0) == State("", false);
    assert Fold([p], 1, list) == BlockStep(State("", false), p, false, list);
  }
}
