/** Headers: `parseHeader` turns each line made of '#' characters, one
    white-space character and a title into a header element whose level is
    the number of '#' characters. */
module Headers {
  import opened Text
  import opened Patterns
  import opened Lines

  /** `parseHeader`: null when no line starts a header; otherwise every
      header is replaced (`g` flag). */
  function ParseHeader(p: string): Option<string> {
    AllProgressive();
    if FindFirst(MatchHeader, true, p).None? then None
    else Some(ReplaceAll(MatchHeader, true, p))
  }

  /** parseHeader returns null exactly when no position of p starts a
      header. */
  lemma HeaderNull(p: string)
    ensures ParseHeader(p).None? <==> forall i | 0 <= i <= |p| :: !HeaderStart(LineStart(p, i), p[i..])
  {
    FindFirstLeftmost(MatchHeader, true, p);
    forall i | 0 <= i <= |p|
      ensures AttemptAt(MatchHeader, true, p, i) == MatchHeader(LineStart(p, i), p[i..])
    {
    }
  }

  /** A line in header form: '#' characters, a white-space character that
      does not break the line, and a non-empty title. */
  predicate HeaderForm(line: string) {
    0 < |line| && line[0] == '#'
    && var k := RunEnd(line, 0, HashSign);
       k + 1 < |line| && IsSpace(line[k]) && !IsLineTerminator(line[k])
  }

  /** The header element of a line: its level is the number of '#'
      characters, its text what follows the separating space. */
  function HeaderLine(line: string): string {
    if HeaderForm(line) then
      var k := RunEnd(line, 0, HashSign);
      HeaderTag(k, line[k + 1..])
    else line
  }

  /** A non-empty line of '#' characters only. */
  predicate AllHashes(line: string) {
    line != [] && forall i | 0 <= i < |line| :: line[i] == '#'
  }

  /** A line rendered on its own: any single line except one of '#'
      characters only, whose header would take a line break for its space
      and its title from the next line. */
  predicate OwnLine(line: string) {
    SingleLine(line) && !AllHashes(line)
  }

  /** The header pattern on a header line followed by nothing or by a line
      break: the whole line is the match. */
  lemma HeaderMatch(line: string, u: string)
    requires SingleLine(line) && HeaderForm(line)
    requires u == [] || u[0] == '\n'
    ensures MatchHeader(true, line + u)
            == Some(Hit(|line|, HeaderTag(RunEnd(line, 0, HashSign), line[RunEnd(line, 0, HashSign) + 1..])))
  {
    var t := line + u;
    var k := RunEnd(line, 0, HashSign);
    RunEndStops(line, u, 0, HashSign);
    RunEndIs(line, k + 1, NotLineBreak, |line|);
    RunEndStops(line, u, k + 1, NotLineBreak);
    assert t[k + 1..|line|] == line[k + 1..];
  }

  /** A line that does not start with '#' starts no header. */
  lemma NoHeaderMatch(line: string, u: string)
    requires line == [] || line[0] != '#'
    requires u == [] || u[0] == '\n'
    ensures MatchHeader(true, line + u).None?
  {
    if line == [] {
      assert line + u == u;
    } else {
      assert (line + u)[0] == line[0];
    }
  }

  /** A line that starts with '#' but is not in header form, and is not
      made of '#' only, starts no header, whatever line follows it. */
  lemma NoHeaderForm(line: string, u: string)
    requires SingleLine(line) && line != [] && line[0] == '#'
    requires !HeaderForm(line) && !AllHashes(line)
    requires u == [] || u[0] == '\n'
    ensures MatchHeader(true, line + u).None?
  {
    var t := line + u;
    var k := RunEnd(line, 0, HashSign);
    RunEndStops(line, u, 0, HashSign);
    if k == |line| {
      assert AllHashes(line);
    }
    assert t[k] == line[k];
    if k + 1 == |line| {
      RunEndStops(line, u, k + 1, NotLineBreak);
    }
  }

  /** The header pattern tried at the start of a line it renders on its
      own stays inside the line, and turns a header line into its element
      and any other line into itself. */
  lemma HeaderLineLocal(line: string)
    requires OwnLine(line)
    ensures LineLocal(MatchHeader, line)
    ensures LineOut(MatchHeader, line) == HeaderLine(line)
  {
    AllProgressive();
    assert line + [] == line;
    forall rest
      ensures MatchHeader(true, line + "\n" + rest) == MatchHeader(true, line)
    {
      assert line + "\n" + rest == line + ("\n" + rest);
      if HeaderForm(line) {
        HeaderMatch(line, "\n" + rest);
        HeaderMatch(line, []);
      } else if line == [] || line[0] != '#' {
        NoHeaderMatch(line, "\n" + rest);
        NoHeaderMatch(line, []);
      } else {
        NoHeaderForm(line, "\n" + rest);
        NoHeaderForm(line, []);
      }
    }
    if HeaderForm(line) {
      HeaderMatch(line, []);
    } else if line == [] || line[0] != '#' {
      NoHeaderMatch(line, []);
    } else {
      NoHeaderForm(line, []);
    }
  }

  /** A header line is rendered on its own. */
  lemma HeaderOwnLine(line: string)
    requires SingleLine(line) && HeaderForm(line)
    ensures OwnLine(line)
  {
    var k := RunEnd(line, 0, HashSign);
    assert line[k] != '#';
  }

  /** In a block of lines joined by "\n" that are each rendered on their
      own, parseHeader turns every header line into its element and keeps
      the other lines; it succeeds when one line is a header. */
  lemma HeaderLines(lines: seq<string>, k: nat)
    requires forall i | 0 <= i < |lines| :: OwnLine(lines[i])
    requires k < |lines| && HeaderForm(lines[k])
    ensures ParseHeader(Join(lines, "\n")) == Some(Join(MapLines(MatchHeader, lines), "\n"))
    ensures forall i | 0 <= i < |lines| :: MapLines(MatchHeader, lines)[i] == HeaderLine(lines[i])
  {
    AllProgressive();
    forall i | 0 <= i < |lines|
      ensures LineLocal(MatchHeader, lines[i])
      ensures LineOut(MatchHeader, lines[i]) == HeaderLine(lines[i])
    {
      HeaderLineLocal(lines[i]);
    }
    assert Anchored(MatchHeader);
    ReplaceLines(MatchHeader, lines);
    HeaderFound(lines, k);
  }

  /** A header line in a block makes parseHeader succeed on the block,
      whatever the other lines are. */
  lemma HeaderFound(lines: seq<string>, k: nat)
    requires k < |lines| && SingleLine(lines[k]) && HeaderForm(lines[k])
    ensures ParseHeader(Join(lines, "\n")).Some?
  {
    var p, o := Join(lines, "\n"), JoinOffset(lines, "\n", k);
    JoinTail(lines, "\n", k);
    LineStartAt(lines, k);
    HeaderOwnLine(lines[k]);
    HeaderLineLocal(lines[k]);
    LocalAtTail(MatchHeader, lines, k);
    assert lines[k] + [] == lines[k];
    HeaderMatch(lines[k], []);
    assert HeaderStart(LineStart(p, o), p[o..]);
    HeaderNull(p);
  }

  /** The element of the line '#' x level, a space, then a title. */
  lemma HeaderOf(level: nat, c: char, title: string)
    requires 1 <= level && IsSpace(c) && !IsLineTerminator(c) && title != []
    ensures HeaderForm(Repeat('#', level) + [c] + title)
    ensures HeaderLine(Repeat('#', level) + [c] + title) == HeaderTag(level, title)
  {
    var line := Repeat('#', level) + [c] + title;
    assert forall j | 0 <= j < level :: line[j] == '#';
    assert line[level] == c;
    RunEndIs(line, 0, HashSign, level);
    assert line[level + 1..] == title;
  }
}
