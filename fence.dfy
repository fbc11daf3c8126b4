/** Opening and closing code fences: `parseCodeStart` and `parseCodeEnd`.
    Both run a `replace` whose callback sets a local flag, and return null
    when the flag stayed unset, that is when the pattern matched nowhere. */
module Fences {
  import opened Text
  import opened Patterns
  import opened Lines

  /** `parseCodeStart`: every line-initial fence, with the run of word
      characters after it, becomes an opening code tag (`g` flag); null when
      no line starts with a fence. */
  function ParseCodeStart(p: string): Option<string> {
    AllProgressive();
    if FindFirst(MatchCodeStart, true, p).None? then None
    else Some(ReplaceAll(MatchCodeStart, true, p))
  }

  /** `parseCodeEnd`: the first fence that ends a line or the text becomes
      a closing code tag (no `g` flag); null when there is none. */
  function ParseCodeEnd(p: string): Option<string> {
    AllProgressive();
    if FindFirst(MatchCodeEnd, true, p).None? then None
    else Some(ReplaceFirst(MatchCodeEnd, true, p))
  }

  /** A line of p starts with a fence at offset i. */
  predicate OpensAt(p: string, i: nat)
    requires i <= |p|
  {
    LineStart(p, i) && Fence(p, i)
  }

  /** A fence ends a line or the text at offset i of p. */
  predicate ClosesAt(p: string, i: nat) {
    FenceEnd(p, i)
  }

  lemma FenceAt(p: string, i: nat)
    requires i <= |p|
    ensures Fence(p[i..], 0) == Fence(p, i)
    ensures FenceEnd(p[i..], 0) == FenceEnd(p, i)
    ensures BolAfter(true, p, i) == LineStart(p, i)
  {
  }

  /** parseCodeStart returns null exactly when no line starts with a fence. */
  lemma CodeStartNull(p: string)
    ensures ParseCodeStart(p).None? <==> forall i | 0 <= i <= |p| :: !OpensAt(p, i)
  {
    FindFirstLeftmost(MatchCodeStart, true, p);
    forall i | 0 <= i <= |p|
      ensures AttemptAt(MatchCodeStart, true, p, i).Some? <==> OpensAt(p, i)
    {
      FenceAt(p, i);
    }
  }

  /** parseCodeEnd returns null exactly when no fence ends a line. */
  lemma CodeEndNull(p: string)
    ensures ParseCodeEnd(p).None? <==> forall i | 0 <= i <= |p| :: !ClosesAt(p, i)
  {
    FindFirstLeftmost(MatchCodeEnd, true, p);
    forall i | 0 <= i <= |p|
      ensures AttemptAt(MatchCodeEnd, true, p, i).Some? <==> ClosesAt(p, i)
    {
      FenceAt(p, i);
    }
  }

  /** Only the first fence that ends a line is replaced; the rest of the
      text, later fences included, is kept. */
  lemma CodeEndFirst(p: string, i: nat)
    requires i <= |p| && ClosesAt(p, i)
    requires forall j | 0 <= j < i :: !ClosesAt(p, j)
    ensures ParseCodeEnd(p) == Some(p[..i] + "</code>" + p[i + 3..])
  {
    AllProgressive();
    forall j | 0 <= j < i
      ensures AttemptAt(MatchCodeEnd, true, p, j).None?
    {
      assert !ClosesAt(p, j);
      FenceAt(p, j);
    }
    FenceAt(p, i);
    MatchAtOffset(MatchCodeEnd, true, p, i, Hit(3, "</code>"));
  }

  /** One line with its opening fence rewritten: the fence and the longest
      run of word characters W after it become `<code class="language-W">`,
      or `<code>` when the run is empty. */
  function OpenFenceLine(line: string): (r: string)
    ensures !Fence(line, 0) ==> r == line
  {
    if Fence(line, 0) then
      var e := RunEnd(line, 3, Word);
      CodeTag(line[3..e]) + line[e..]
    else line
  }

  lemma CodeStartLineLocal(line: string)
    requires SingleLine(line)
    ensures LineLocal(MatchCodeStart, line)
    ensures LineOut(MatchCodeStart, line) == OpenFenceLine(line)
  {
    AllProgressive();
    forall rest
      ensures MatchCodeStart(true, line + "\n" + rest) == MatchCodeStart(true, line)
    {
      var t := line + "\n" + rest;
      assert t == line + ("\n" + rest);
      if Fence(line, 0) {
        RunEndStops(line, "\n" + rest, 3, Word);
        assert t[3..RunEnd(line, 3, Word)] == line[3..RunEnd(line, 3, Word)];
      } else {
        assert !Fence(t, 0) by {
          if |line| < 3 {
            assert t[|line|] == '\n';
          }
        }
      }
    }
  }

  /** A line of a block that starts with a fence makes parseCodeStart
      succeed on the block. */
  lemma CodeStartFound(lines: seq<string>, k: nat)
    requires k < |lines| && Fence(lines[k], 0)
    ensures ParseCodeStart(Join(lines, "\n")).Some?
  {
    var p, o := Join(lines, "\n"), JoinOffset(lines, "\n", k);
    JoinPosition(lines, "\n", k);
    assert Fence(p, o) by {
      var l := p[o..o + |lines[k]|];
      assert l == lines[k];
      assert p[o] == l[0] && p[o + 1] == l[1] && p[o + 2] == l[2];
    }
    if 0 < k {
      assert p[o - 1] == p[o - 1..o][0];
    }
    assert OpensAt(p, o);
    CodeStartNull(p);
  }

  /** In a block of single lines joined by "\n", parseCodeStart rewrites
      each line on its own, and succeeds when one of them opens a fence. */
  lemma CodeStartLines(lines: seq<string>, k: nat)
    requires forall i | 0 <= i < |lines| :: SingleLine(lines[i])
    requires k < |lines| && Fence(lines[k], 0)
    ensures ParseCodeStart(Join(lines, "\n")) == Some(Join(MapLines(MatchCodeStart, lines), "\n"))
    ensures forall i | 0 <= i < |lines| :: MapLines(MatchCodeStart, lines)[i] == OpenFenceLine(lines[i])
  {
    AllProgressive();
    forall i | 0 <= i < |lines|
      ensures LineLocal(MatchCodeStart, lines[i])
      ensures LineOut(MatchCodeStart, lines[i]) == OpenFenceLine(lines[i])
    {
      CodeStartLineLocal(lines[i]);
    }
    assert Anchored(MatchCodeStart);
    ReplaceLines(MatchCodeStart, lines);
    CodeStartFound(lines, k);
  }
}
