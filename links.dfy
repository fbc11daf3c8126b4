/** Links and images: `parseAnchors` replaces every `[label](href)`,
    `parseImages` only the first `![label](src)` and wraps the whole block. */
module Links {
  import opened Text
  import opened Patterns

  /** `parseAnchors`: every link becomes an anchor element (`g` flag). */
  function ParseAnchors(s: string): string {
    AllProgressive();
    ReplaceAll(MatchAnchor, true, s)
  }

  const ImageWrapperOpen := "<div class=\"image-wrapper\">"
  const ImageWrapperClose := "</div>"

  /** The first match of m in p replaced, and the whole text wrapped;
      null when m matches nowhere. */
  function WrapFirst(m: Matcher, p: string): Option<string>
    requires Progressive(m)
  {
    FindFirstLeftmost(m, true, p);
    match FindFirst(m, true, p)
    case None => None
    case Some(f) =>
      assert AttemptAt(m, true, p, f.pos) == Some(f.hit);
      Some(ImageWrapperOpen + p[..f.pos] + f.hit.out + p[f.pos + f.hit.len..] + ImageWrapperClose)
  }

  /** `parseImages`: null without an image; otherwise the first image
      becomes an img element and the whole block, the text before and after
      it included, is wrapped in the image wrapper. */
  function ParseImages(p: string): Option<string> {
    AllProgressive();
    WrapFirst(MatchImage, p)
  }

  /** An image in reference shape: "!" and then a link. */
  predicate IsImage(u: string, text: string, target: string) {
    0 < |u| && u[0] == '!' && IsLink(u[1..], text, target)
  }

  /** parseImages returns null exactly when the block holds no image. */
  lemma ImagesNull(p: string)
    ensures ParseImages(p).None? <==> forall i, text, target | 0 <= i <= |p| :: !IsImage(p[i..], text, target)
  {
    FindFirstLeftmost(MatchImage, true, p);
    forall i | 0 <= i <= |p|
      ensures AttemptAt(MatchImage, true, p, i).Some? <==> exists text, target :: IsImage(p[i..], text, target)
    {
      var u := p[i..];
      if 0 < |u| && u[0] == '!' && MatchLink(u[1..]).Some? {
        var l := MatchLink(u[1..]).value;
        assert IsImage(u, l.text, l.target);
      }
    }
  }

  /** The first match, found at offset n, decides the wrapped result. */
  lemma WrapAt(m: Matcher, p: string, n: nat, h: Hit)
    requires Progressive(m) && n <= |p| && NoMatchBefore(m, true, p, n)
    requires AttemptAt(m, true, p, n) == Some(h)
    ensures n + h.len <= |p|
    ensures WrapFirst(m, p) == Some(ImageWrapperOpen + p[..n] + h.out + p[n + h.len..] + ImageWrapperClose)
  {
    MatchAtOffset(m, true, p, n, h);
  }

  /** The first image, found at offset n, decides the result. */
  lemma ImagesAt(p: string, n: nat, h: Hit)
    requires n <= |p| && NoMatchBefore(MatchImage, true, p, n)
    requires AttemptAt(MatchImage, true, p, n) == Some(h)
    ensures n + h.len <= |p|
    ensures ParseImages(p) == Some(ImageWrapperOpen + p[..n] + h.out + p[n + h.len..] + ImageWrapperClose)
  {
    AllProgressive();
    WrapAt(MatchImage, p, n, h);
  }

  /** The image pattern on "!" and a link. */
  lemma ImageOf(bol: bool, v: string, l: Link)
    requires MatchLink(v) == Some(l)
    ensures MatchImage(bol, "!" + v) == Some(Hit(l.len + 1, ImageTag(l)))
  {
    assert ("!" + v)[1..] == v;
  }

  /** "![" is "!" and then "[". */
  lemma BangSplit(text: string, target: string, post: string)
    ensures "![" + text + "](" + target + ")" + post == "!" + ("[" + text + "](" + target + ")" + post)
  {
    assert "![" == "!" + "[";
    InFront("!", "[", text, "](", target, ")", post);
  }

  /** The image pattern on "![" text "](" target ")" and anything after. */
  lemma ImageShape(bol: bool, text: string, target: string, post: string)
    requires text != [] && Lacks(text, ']') && target != [] && Lacks(target, ')')
    ensures MatchImage(bol, "![" + text + "](" + target + ")" + post)
            == Some(Hit(|text| + |target| + 5, ImageTag(Link(text, target, |text| + |target| + 4))))
  {
    var v := "[" + text + "](" + target + ")" + post;
    BangSplit(text, target, post);
    LinkShape(text, target, post);
    LinkIs(v, text, target);
    ImageOf(bol, v, Link(text, target, |text| + |target| + 4));
  }

  /** After text without '!', the first image is rendered and everything
      after it, later images included, is copied; the block is wrapped. */
  lemma ImageWraps(pre: string, text: string, target: string, post: string)
    requires Lacks(pre, '!')
    requires text != [] && Lacks(text, ']') && target != [] && Lacks(target, ')')
    ensures ParseImages(pre + "![" + text + "](" + target + ")" + post)
            == Some(ImageWrapperOpen + pre + ImageTag(Link(text, target, |text| + |target| + 4)) + post
                    + ImageWrapperClose)
  {
    AllLead();
    var u := "![" + text + "](" + target + ")" + post;
    var s := pre + u;
    var h := Hit(|text| + |target| + 5, ImageTag(Link(text, target, |text| + |target| + 4)));
    assert s == pre + "![" + text + "](" + target + ")" + post;
    assert s[..|pre|] == pre && s[|pre|..] == u;
    NoMatchLacking(MatchImage, '!', true, s, |pre|);
    ImageShape(BolAfter(true, s, |pre|), text, target, post);
    ImagesAt(s, |pre|, h);
    assert s[|pre| + h.len..] == post;
  }

  /** Text without '[' holds no link and is left unchanged. */
  lemma AnchorsNone(s: string)
    requires Lacks(s, '[')
    ensures ParseAnchors(s) == s
  {
    AllProgressive();
    AllLead();
    assert s[..|s|] == s;
    NoMatchLacking(MatchAnchor, '[', true, s, |s|);
    ReplaceNothing(MatchAnchor, true, s);
  }

  /** After text without '[', a link becomes an anchor and the rest is
      parsed on its own: every link is rewritten independently. */
  lemma AnchorSpan(pre: string, text: string, target: string, post: string)
    requires Lacks(pre, '[')
    requires text != [] && Lacks(text, ']') && target != [] && Lacks(target, ')')
    ensures ParseAnchors(pre + "[" + text + "](" + target + ")" + post)
            == pre + AnchorTag(Link(text, target, |text| + |target| + 4)) + ParseAnchors(post)
  {
    AnchorLaws();
    var l := Link(text, target, |text| + |target| + 4);
    var v := "[" + text + "](" + target + ")" + post;
    AnchorHit(text, target, post);
    SpanAfter(MatchAnchor, '[', pre, v, Hit(l.len, AnchorTag(l)));
    InFront(pre, "[", text, "](", target, ")", post);
  }

  /** The anchor pattern on "[" text "](" target ")" and anything after. */
  lemma AnchorHit(text: string, target: string, post: string)
    requires text != [] && Lacks(text, ']') && target != [] && Lacks(target, ')')
    ensures var l := Link(text, target, |text| + |target| + 4);
            MatchAnchor(true, "[" + text + "](" + target + ")" + post) == Some(Hit(l.len, AnchorTag(l)))
            && ("[" + text + "](" + target + ")" + post)[l.len..] == post
  {
    var v := "[" + text + "](" + target + ")" + post;
    LinkShape(text, target, post);
    LinkIs(v, text, target);
    assert v[|text| + |target| + 4..] == post;
  }
}
