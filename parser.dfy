/** `parser`: the block parser followed by the inline rewriters, with an
    optional cache in the browser's session storage. */
module Pipeline {
  import opened Text
  import opened Patterns
  import opened Split
  import opened Fences
  import opened Headers
  import opened Emphasis
  import opened Links
  import opened InlineCode
  import opened Blocks
  import opened BlockCases

  /** The output of parser before the cache is consulted: the blocks, then
      bold, italic, anchors and inline code, in this order. */
  function Markdown(s: string, list: ListParser): string {
    InlineCodeOf(ParseAnchors(ParseItalic(ParseBold(ParseBlockOf(s, list)))))
  }

  const KeyPrefix := "markdown.parser."

  /** `sessionKey`: the storage key of a cache identifier. */
  function SessionKey(id: string): (r: string)
    ensures |r| == |KeyPrefix| + |id| && r[..|KeyPrefix|] == KeyPrefix && r[|KeyPrefix|..] == id
  {
    KeyPrefix + id
  }

  /** Different identifiers have different keys. */
  lemma KeysDistinct(a: string, b: string)
    ensures SessionKey(a) == SessionKey(b) <==> a == b
  {
    if SessionKey(a) == SessionKey(b) {
      assert a == SessionKey(a)[|KeyPrefix|..];
    }
  }

  /** The session storage of the browser: a map from keys to texts. */
  class SessionStorage {
    var items: map<string, string>

    constructor ()
      ensures items == map[]
    {
      items := map[];
    }

    /** `getItem`: the stored text, null for a key never set. */
    function GetItem(key: string): (r: Option<string>)
      reads this
      ensures r.Some? <==> key in items
      ensures r.Some? ==> r.value == items[key]
    {
      if key in items then Some(items[key]) else None
    }

    /** `setItem`: stores a text under a key, replacing what was there. */
    method SetItem(key: string, value: string)
      modifies this
      ensures items == old(items)[key := value]
    {
      items := items[key := value];
    }
  }

  /** What a call with caching in effect returns and leaves in storage. */
  datatype Served = Served(out: string, items: map<string, string>)

  /** The cache of parser over the storage contents `items`: with a truthy
      identifier, a truthy stored text is returned as it is; otherwise the
      computed output is returned and stored under the identifier's key. */
  function Serve(computed: string, id: Option<string>, items: map<string, string>): Served {
    if !Truthy(id) then Served(computed, items)
    else
      var key := SessionKey(id.value);
      if key in items && items[key] != "" then Served(items[key], items)
      else Served(computed, items[key := computed])
  }

  /** Without an identifier (null, undefined or empty) nothing is read or
      stored. */
  lemma ServeUncached(computed: string, id: Option<string>, items: map<string, string>)
    requires !Truthy(id)
    ensures Serve(computed, id, items).out == computed && Serve(computed, id, items).items == items
  {
  }

  /** A stored non-empty text wins over the freshly computed output, whatever the
      input was. */
  lemma ServeHit(computed: string, id: string, items: map<string, string>)
    requires id != "" && SessionKey(id) in items && items[SessionKey(id)] != ""
    ensures Serve(computed, Some(id), items) == Served(items[SessionKey(id)], items)
  {
  }

  /** Without a usable stored text, the freshly computed output is returned and
      stored; no other key changes. */
  lemma ServeMiss(computed: string, id: string, items: map<string, string>)
    requires id != "" && (SessionKey(id) !in items || items[SessionKey(id)] == "")
    ensures Serve(computed, Some(id), items).out == computed
    ensures SessionKey(id) in Serve(computed, Some(id), items).items
    ensures Serve(computed, Some(id), items).items[SessionKey(id)] == computed
    ensures forall k | k != SessionKey(id) :: (k in items <==> k in Serve(computed, Some(id), items).items)
    ensures forall k | k != SessionKey(id) && k in items :: Serve(computed, Some(id), items).items[k] == items[k]
  {
  }

  /** Once a call with an identifier has returned a non-empty text, every
      later call with the same identifier returns that text again, even for
      a different input. */
  lemma ServeRepeat(first: string, second: string, id: string, items: map<string, string>)
    requires id != "" && Serve(first, Some(id), items).out != ""
    ensures Serve(second, Some(id), Serve(first, Some(id), items).items) == Serve(first, Some(id), items)
  {
  }

  /** `parser`: the rewriters in order, then the cache when an identifier
      is given and session storage exists (`storage` is null where it does
      not). */
  method Parser(str: string, cacheId: Option<string>, storage: SessionStorage?, list: ListParser)
    returns (out: string)
    modifies storage
    ensures storage == null ==> out == Markdown(str, list)
    ensures storage != null ==> Served(out, storage.items) == Serve(Markdown(str, list), cacheId, old(storage.items))
  {
    var blocks := ParseBlock(str, list);
    var output := ParseInlineCode(ParseAnchors(ParseItalic(ParseBold(blocks))));
    if Truthy(cacheId) && storage != null {
      var cached := storage.GetItem(SessionKey(cacheId.value));
      if Truthy(cached) {
        return cached.value;
      }
      storage.SetItem(SessionKey(cacheId.value), output);
    }
    return output;
  }

  // -----------------------------------------------------------------------
  // Plain text

  /** A pattern that starts with c finds nothing in text without c, and
      its replace leaves the text as it is. */
  lemma Untouched(m: Matcher, c: char, t: string)
    requires Progressive(m) && Leads(m, c) && Lacks(t, c)
    ensures FindFirst(m, true, t).None? && ReplaceAll(m, true, t) == t
  {
    assert t[..|t|] == t;
    NoMatchLacking(m, c, true, t, |t|);
    ReplaceNothing(m, true, t);
  }

  /** Text without '[' holds no image. */
  lemma NoImage(t: string)
    requires Lacks(t, '[')
    ensures ParseImages(t).None?
  {
    AllLead();
    forall i | 0 <= i <= |t|
      ensures AttemptAt(MatchImage, true, t, i).None?
    {
      var u := t[i..];
      if 1 < |u| {
        assert u[1..][0] == t[i + 1];
      }
    }
    AllProgressive();
    FindFirstLeftmost(MatchImage, true, t);
  }

  /** A block without fence, header mark or '[' that the list parser does
      not take becomes a paragraph. */
  lemma PlainBlock(w: string, list: ListParser)
    requires Lacks(w, '`') && Lacks(w, '#') && Lacks(w, '[') && !Truthy(list(w))
    ensures Classified(w, list) == Outcome(Some(ParseParagraph(w)), false)
  {
    AllProgressive();
    AllLead();
    Untouched(MatchCodeStart, '`', w);
    Untouched(MatchHeader, '#', w);
    NoImage(w);
  }

  /** The paragraph element around w holds no opening code tag. */
  lemma ParagraphNoTag(w: string)
    requires Lacks(w, '<')
    ensures NoCodeTag(ParseParagraph(w))
  {
    var x := ParseParagraph(w);
    forall i | 0 <= i < |x|
      ensures !AtIgnoringCase(x, i, "<code")
    {
      if i + 5 <= |x| {
        if i == 0 || i == 3 + |w| {
          assert x[i + 1] == (if i == 0 then 'p' else '/');
          assert LowerAscii(x[i + 1]) != "<code"[1];
        } else {
          if i < 3 {
            assert x[i] == "<p>"[i];
          } else {
            assert x[i] == w[i - 3];
          }
          LowerKeeps(x[i + 0]);
          assert LowerAscii(x[i + 0]) != "<code"[0];
        }
      }
    }
  }

  /** Text without '*', '[', '`' or an opening code tag is left as it is
      by every inline rewriter. */
  lemma InlineKeeps(x: string)
    requires Lacks(x, '*') && Lacks(x, '[') && Lacks(x, '`') && NoCodeTag(x)
    ensures ParseBold(x) == x && ParseItalic(x) == x && ParseAnchors(x) == x && InlineCodeOf(x) == x
  {
    AllProgressive();
    AllLead();
    Untouched(MatchBold, '*', x);
    Untouched(MatchItalic, '*', x);
    Untouched(MatchAnchor, '[', x);
    InlinePlain(x);
    Untouched(MatchBacktick, '`', x);
  }

  /** A one-block text that is a plain block is a paragraph. */
  lemma PlainBlockOf(w: string, list: ListParser)
    requires NoBreak(w) && !Truthy(list(w))
    requires Lacks(w, '`') && Lacks(w, '#') && Lacks(w, '[')
    ensures ParseBlockOf(w, list) == ParseParagraph(w)
  {
    SplitLast(w);
    PlainBlock(w, list);
    assert FoldBy(ParseCodeEnd, ClassifyWith(list), [w], 0) == State("", false);
    assert Fold([w], 1, list) == BlockStep(State("", false), w, false, list);
  }

  /** A one-block text without markup characters comes out as one
      paragraph around the text, its single line breaks kept. */
  lemma PlainText(w: string, list: ListParser)
    requires NoBreak(w) && !Truthy(list(w))
    requires Lacks(w, '`') && Lacks(w, '#') && Lacks(w, '[') && Lacks(w, '*') && Lacks(w, '<')
    ensures Markdown(w, list) == "<p>" + w + "</p>"
  {
    PlainBlockOf(w, list);
    var x := ParseParagraph(w);
    ParagraphLacks(w, '*');
    ParagraphLacks(w, '[');
    ParagraphLacks(w, '`');
    ParagraphNoTag(w);
    InlineKeeps(x);
  }

  /** The paragraph element adds no character other than those of its
      tags. */
  lemma ParagraphLacks(w: string, c: char)
    requires Lacks(w, c) && c !in "<p/>"
    ensures Lacks(ParseParagraph(w), c)
  {
    var x := ParseParagraph(w);
    forall i | 0 <= i < |x|
      ensures x[i] != c
    {
      if i < 3 {
        assert x[i] == "<p>"[i];
      } else if i < |x| - 4 {
        assert x[i] == w[i - 3];
      } else {
        assert x[i] == "</p>"[i - (|x| - 4)];
      }
    }
  }

  /** The empty document is one empty block, which the chain makes a
      paragraph unless the list parser takes it. */
  lemma EmptyDocument(list: ListParser)
    requires !Truthy(list(""))
    ensures Markdown("", list) == "<p></p>"
  {
    PlainText("", list);
  }

  /** The body of an unclosed fence through the backtick pattern alone: the
      opening tag is kept and the backtick span becomes a code element. */
  lemma UnclosedSpan(y: string)
    requires y != [] && Lacks(y, '`')
    ensures Backticks("<code>\n`" + y + "`") == "<code>\n<code>" + y + "</code>"
  {
    BacktickSpan("<code>\n", y, "");
    InlineProgressive();
    assert Backticks("") == "";
    assert "<code>\n" + "`" + y + "`" + "" == "<code>\n`" + y + "`";
    assert "<code>\n" + "<code>" + y + "</code>" + "" == "<code>\n<code>" + y + "</code>";
  }

  /** The body of an unclosed fence, after the inline-code stage: the
      opening tag is kept and the backtick span becomes a code element. */
  lemma UnclosedBody(y: string)
    requires y != [] && Lacks(y, '`') && Lacks(y, '<')
    ensures InlineCodeOf("<code>\n`" + y + "`") == "<code>\n<code>" + y + "</code>"
  {
    var x := "\n`" + y + "`";
    assert Lacks(x, '<') by {
      assert forall i | 2 <= i < 2 + |y| :: x[i] == y[i - 2];
    }
    NoCloseAfterTag(x);
    assert "<code>" + x == "<code>\n`" + y + "`";
    InlineUnclosed("<code>" + x);
    UnclosedSpan(y);
  }

  /** A fence that is never closed leaves its body to the inline
      rewriters: parseInlineCode finds an opening "<code>" tag but no
      closing one, so a backtick span in the body becomes a code element of
      its own, nested in the unclosed one. */
  lemma UnclosedFenceSpan(y: string, list: ListParser)
    requires y != [] && SingleLine(y) && Lacks(y, '`') && Lacks(y, '*') && Lacks(y, '[') && Lacks(y, '<')
    ensures Markdown("```\n`" + y + "`", list) == "<code>\n<code>" + y + "</code>"
  {
    UnclosedFence(y, list);
    var c := "<code>\n`" + y + "`";
    UnclosedLacks(y, '*');
    UnclosedLacks(y, '[');
    EmphasisAndLinksKeep(c);
    UnclosedBody(y);
  }

  /** The unclosed block adds no character but those of its tag and
      backticks. */
  lemma UnclosedLacks(y: string, ch: char)
    requires Lacks(y, ch) && ch !in "<code>\n`"
    ensures Lacks("<code>\n`" + y + "`", ch)
  {
    var c := "<code>\n`" + y + "`";
    forall i | 0 <= i < |c|
      ensures c[i] != ch
    {
      if i < 8 {
        assert c[i] == "<code>\n`"[i];
      } else if i < 8 + |y| {
        assert c[i] == y[i - 8];
      }
    }
  }

  /** Text without '*' and '[' passes bold, italic and anchors unchanged. */
  lemma EmphasisAndLinksKeep(c: string)
    requires Lacks(c, '*') && Lacks(c, '[')
    ensures ParseAnchors(ParseItalic(ParseBold(c))) == c
  {
    AllProgressive();
    AllLead();
    Untouched(MatchBold, '*', c);
    Untouched(MatchItalic, '*', c);
    Untouched(MatchAnchor, '[', c);
  }
}
