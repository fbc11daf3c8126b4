/** Bold and italic text: `parseBold` and `parseItalic`, global replaces of
    a starred group whose lazy middle takes the shortest closing. */
module Emphasis {
  import opened Text
  import opened Patterns

  /** `parseBold`: every `**group**` becomes `<strong>group</strong>`. */
  function ParseBold(s: string): string {
    AllProgressive();
    ReplaceAll(MatchBold, true, s)
  }

  /** `parseItalic`: every `*group*` becomes `<i>group</i>`. */
  function ParseItalic(s: string): string {
    AllProgressive();
    ReplaceAll(MatchItalic, true, s)
  }

  /** A group that can be emphasised as a whole: at least three characters,
      no line break, no star, and no white space at either edge. */
  predicate Emphasisable(w: string) {
    3 <= |w| && SingleLine(w) && Lacks(w, '*') && !IsSpace(w[0]) && !IsSpace(w[|w| - 1])
  }

  /** The group w, followed by stars, closes exactly at its end. */
  lemma GroupCloses(t: string, g: nat, w: string, stars: nat, italic: bool)
    requires Emphasisable(w) && 1 <= stars
    requires g + |w| + stars <= |t| && t[g..g + |w|] == w
    requires forall j | g + |w| <= j < g + |w| + stars :: t[j] == '*'
    ensures ShortestClose(t, g, 3, stars, italic) == Some(|w|)
  {
    assert forall j | 0 <= j < |w| :: t[g + j] == w[j];
    assert Closes(t, g, |w|, stars, italic);
    forall n | 3 <= n < |w|
      ensures !Closes(t, g, n, stars, italic)
    {
      assert t[g + n] == w[n];
    }
    ShortestCloseIs(t, g, 3, stars, italic, |w|);
  }

  /** The bold pattern on a starred group and anything after it. */
  lemma BoldHit(w: string, post: string)
    requires Emphasisable(w)
    ensures MatchBold(true, "**" + w + "**" + post) == Some(Hit(|w| + 4, "<strong>" + w + "</strong>"))
    ensures ("**" + w + "**" + post)[|w| + 4..] == post
  {
    var u := "**" + w + "**" + post;
    GroupCloses(u, 2, w, 2, false);
    assert u[2..2 + |w|] == w;
  }

  /** The italic pattern on a starred group and anything after it. */
  lemma ItalicHit(w: string, post: string)
    requires Emphasisable(w)
    ensures MatchItalic(true, "*" + w + "*" + post) == Some(Hit(|w| + 2, "<i>" + w + "</i>"))
    ensures ("*" + w + "*" + post)[|w| + 2..] == post
  {
    var u := "*" + w + "*" + post;
    GroupCloses(u, 1, w, 1, true);
    assert u[1..1 + |w|] == w;
  }

  /** A bold span after text without stars is rendered, and the rest is
      parsed on its own. */
  lemma BoldSpan(pre: string, w: string, post: string)
    requires Lacks(pre, '*') && Emphasisable(w)
    ensures ParseBold(pre + "**" + w + "**" + post)
            == pre + "<strong>" + w + "</strong>" + ParseBold(post)
  {
    BoldLaws();
    var u := "**" + w + "**" + post;
    BoldHit(w, post);
    SpanAfter(MatchBold, '*', pre, u, Hit(|w| + 4, "<strong>" + w + "</strong>"));
    InFrontShort(pre, "**", w, "**", post);
    Spliced(pre, "<strong>", w, "</strong>", ParseBold(post));
  }

  /** An italic span after text without stars is rendered, and the rest is
      parsed on its own. */
  lemma ItalicSpan(pre: string, w: string, post: string)
    requires Lacks(pre, '*') && Emphasisable(w)
    ensures ParseItalic(pre + "*" + w + "*" + post)
            == pre + "<i>" + w + "</i>" + ParseItalic(post)
  {
    ItalicLaws();
    var u := "*" + w + "*" + post;
    ItalicHit(w, post);
    SpanAfter(MatchItalic, '*', pre, u, Hit(|w| + 2, "<i>" + w + "</i>"));
    InFrontShort(pre, "*", w, "*", post);
    Spliced(pre, "<i>", w, "</i>", ParseItalic(post));
  }

  /** Why a bold attempt fails: no opening pair, white space right after
      it, or no star anywhere after it to close with. */
  lemma BoldFails(bol: bool, t: string)
    requires |t| < 3 || t[0] != '*' || t[1] != '*' || IsSpace(t[2]) || Lacks(t[2..], '*')
    ensures MatchBold(bol, t).None?
  {
    if 3 <= |t| && t[0] == '*' && t[1] == '*' && Lacks(t[2..], '*') {
      forall n | 2 <= n < |t|
        ensures t[n] != '*'
      {
        assert t[n] == t[2..][n - 2];
      }
      NoStarNoClose(t, 2, 3, 2, false);
    }
  }

  /** Why an italic attempt fails: no opening star, white space or a star
      right after it, or no star anywhere after it to close with. */
  lemma ItalicFails(bol: bool, t: string)
    requires |t| < 2 || t[0] != '*' || IsSpace(t[1]) || t[1] == '*' || Lacks(t[1..], '*')
    ensures MatchItalic(bol, t).None?
  {
    if 2 <= |t| && t[0] == '*' && Lacks(t[1..], '*') {
      forall n | 1 <= n < |t|
        ensures t[n] != '*'
      {
        assert t[n] == t[1..][n - 1];
      }
      NoStarNoClose(t, 1, 3, 1, true);
    }
  }

  /** Stars set apart from the text by spaces are not emphasis: the text
      is left unchanged (`Hello ** world **!`). */
  lemma BoldLoose(pre: string, mid: string, post: string)
    requires Lacks(pre, '*') && Lacks(mid, '*') && Lacks(post, '*')
    ensures ParseBold(pre + "** " + mid + " **" + post) == pre + "** " + mid + " **" + post
  {
    AllProgressive();
    var s := pre + "** " + mid + " **" + post;
    var a := |pre|;
    var b := a + 3 + |mid|;
    assert forall j | 0 <= j < a :: s[j] == pre[j];
    assert s[a] == '*' && s[a + 1] == '*' && s[a + 2] == ' ';
    assert forall j | a + 3 <= j < b :: s[j] == mid[j - a - 3];
    assert s[b] == ' ' && s[b + 1] == '*' && s[b + 2] == '*';
    assert forall j | b + 3 <= j < |s| :: s[j] == post[j - b - 3];
    forall i | 0 <= i < |s|
      ensures AttemptAt(MatchBold, true, s, i).None?
    {
      var t := s[i..];
      if i == b + 1 {
        assert t[2..] == post;
      } else if i < a || a + 1 < i < b + 1 {
        assert t[0] == s[i];
      } else if i == a + 1 || i == b + 2 {
        assert |t| < 3 || t[1] == s[i + 1];
      } else if i == a {
        assert t[2] == s[a + 2];
      } else {
        assert t[0] == s[i];
      }
      BoldFails(BolAfter(true, s, i), t);
    }
    ReplaceNothing(MatchBold, true, s);
  }

  /** A star set apart by a space is not emphasis: the text is left
      unchanged (`Hello * world! *`). */
  lemma ItalicLoose(pre: string, mid: string, post: string)
    requires Lacks(pre, '*') && Lacks(mid, '*') && Lacks(post, '*')
    ensures ParseItalic(pre + "* " + mid + " *" + post) == pre + "* " + mid + " *" + post
  {
    AllProgressive();
    var s := pre + "* " + mid + " *" + post;
    var a := |pre|;
    var b := a + 2 + |mid|;
    assert forall j | 0 <= j < a :: s[j] == pre[j];
    assert s[a] == '*' && s[a + 1] == ' ';
    assert forall j | a + 2 <= j < b :: s[j] == mid[j - a - 2];
    assert s[b] == ' ' && s[b + 1] == '*';
    assert forall j | b + 2 <= j < |s| :: s[j] == post[j - b - 2];
    forall i | 0 <= i < |s|
      ensures AttemptAt(MatchItalic, true, s, i).None?
    {
      var t := s[i..];
      if i == b + 1 {
        assert t[1..] == post;
      } else if i == a {
        assert t[1] == s[a + 1];
      } else {
        assert t[0] == s[i];
      }
      ItalicFails(BolAfter(true, s, i), t);
    }
    ReplaceNothing(MatchItalic, true, s);
  }
}
