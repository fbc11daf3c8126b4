/** Replacing with a pattern anchored by `^` under the multiline flag, line
    by line: when no match runs past the end of its line, replacing every
    match in lines joined by "\n" rewrites each line on its own. */
module Lines {
  import opened Text
  import opened Patterns

  /** The pattern only matches at the start of a line. */
  ghost predicate Anchored(m: Matcher) {
    forall t :: m(false, t).None?
  }

  /** The attempt at the start of line never looks past the line's end:
      whatever follows a line break, it finds the same match. */
  ghost predicate LineLocal(m: Matcher, line: string) {
    SingleLine(line)
    && forall rest :: m(true, line + "\n" + rest) == m(true, line)
  }

  /** One line with the match at its start, if any, replaced. */
  function LineOut(m: Matcher, line: string): string
    requires Progressive(m)
  {
    match m(true, line)
    case Some(h) => h.out + line[h.len..]
    case None => line
  }

  function MapLines(m: Matcher, lines: seq<string>): (r: seq<string>)
    requires Progressive(m)
    ensures |r| == |lines|
    ensures forall i | 0 <= i < |lines| :: r[i] == LineOut(m, lines[i])
  {
    if lines == [] then [] else [LineOut(m, lines[0])] + MapLines(m, lines[1..])
  }

  /** Inside a line no anchored attempt succeeds, except possibly the one
      at its very start. */
  lemma Quiet(m: Matcher, bol: bool, t: string, n: nat)
    requires Anchored(m) && n <= |t|
    requires forall i | 0 <= i < n - 1 :: !IsLineTerminator(t[i])
    requires 0 < n ==> AttemptAt(m, bol, t, 0).None?
    ensures NoMatchBefore(m, bol, t, n)
  {
    forall i | 0 < i < n
      ensures AttemptAt(m, bol, t, i).None?
    {
      assert !IsLineTerminator(t[i - 1]);
      assert m(false, t[i..]).None?;
    }
  }

  /** The replacement of a line followed by a line break and more text. */
  lemma ReplaceLine(m: Matcher, line: string, rest: string)
    requires Progressive(m) && Anchored(m) && LineLocal(m, line)
    ensures ReplaceAll(m, true, line + "\n" + rest) == LineOut(m, line) + "\n" + ReplaceAll(m, true, rest)
  {
    var t := line + "\n" + rest;
    assert m(true, t) == m(true, line);
    match m(true, line)
    case Some(h) =>
      var u := t[h.len..];
      var n := |line| - h.len + 1;
      assert u == line[h.len..] + "\n" + rest;
      forall i | 0 <= i < n - 1
        ensures !IsLineTerminator(u[i])
      {
        assert u[i] == line[h.len + i];
      }
      Quiet(m, false, u, n);
      ReplaceAllSkips(m, false, u, n);
      assert u[..n] == line[h.len..] + "\n";
      assert u[n..] == rest;
      calc {
        ReplaceAll(m, true, t);
        h.out + ReplaceAll(m, false, u);
        h.out + (line[h.len..] + "\n" + ReplaceAll(m, true, rest));
        { assert h.out + (line[h.len..] + "\n" + ReplaceAll(m, true, rest))
            == (h.out + line[h.len..]) + "\n" + ReplaceAll(m, true, rest); }
        LineOut(m, line) + "\n" + ReplaceAll(m, true, rest);
      }
    case None =>
      var n := |line| + 1;
      assert t[0..] == t;
      forall i | 0 <= i < n - 1
        ensures !IsLineTerminator(t[i])
      {
        assert t[i] == line[i];
      }
      Quiet(m, true, t, n);
      ReplaceAllSkips(m, true, t, n);
      assert t[..n] == line + "\n";
      assert t[n..] == rest;
  }

  /** The last line, with nothing after it. */
  lemma ReplaceLastLine(m: Matcher, line: string)
    requires Progressive(m) && Anchored(m) && SingleLine(line)
    ensures ReplaceAll(m, true, line) == LineOut(m, line)
  {
    match m(true, line)
    case Some(h) =>
      var u := line[h.len..];
      forall i | 0 <= i < |u|
        ensures !IsLineTerminator(u[i])
      {
        assert u[i] == line[h.len + i];
      }
      Quiet(m, false, u, |u|);
      ReplaceNothing(m, false, u);
    case None =>
      assert line[0..] == line;
      Quiet(m, true, line, |line|);
      ReplaceNothing(m, true, line);
  }

  /** Lines joined by "\n", none of whose matches leaves its line, are
      rewritten line by line. */
  lemma {:induction false} ReplaceLines(m: Matcher, lines: seq<string>)
    requires Progressive(m) && Anchored(m)
    requires forall i | 0 <= i < |lines| :: LineLocal(m, lines[i])
    ensures ReplaceAll(m, true, Join(lines, "\n")) == Join(MapLines(m, lines), "\n")
  {
    if |lines| == 0 {
    } else if |lines| == 1 {
      ReplaceLastLine(m, lines[0]);
    } else {
      ReplaceLine(m, lines[0], Join(lines[1..], "\n"));
      ReplaceLines(m, lines[1..]);
      assert MapLines(m, lines)[1..] == MapLines(m, lines[1..]);
    }
  }

  /** The attempt at the start of line k of joined lines sees only that
      line, when the pattern stays inside it. */
  lemma LocalAtTail(m: Matcher, lines: seq<string>, k: nat)
    requires k < |lines| && LineLocal(m, lines[k])
    ensures m(true, Join(lines[k..], "\n")) == m(true, lines[k])
  {
    if k + 1 < |lines| {
      assert lines[k..][1..] == lines[k + 1..];
      assert Join(lines[k..], "\n") == lines[k] + "\n" + Join(lines[k + 1..], "\n");
    } else {
      assert Join(lines[k..], "\n") == lines[k];
    }
  }

  /** Every line of joined lines starts a line of the joined text. */
  lemma LineStartAt(lines: seq<string>, k: nat)
    requires k < |lines|
    ensures JoinOffset(lines, "\n", k) <= |Join(lines, "\n")|
    ensures LineStart(Join(lines, "\n"), JoinOffset(lines, "\n", k))
  {
    var p, o := Join(lines, "\n"), JoinOffset(lines, "\n", k);
    JoinPosition(lines, "\n", k);
    if 0 < k {
      assert p[o - 1] == p[o - 1..o][0];
    }
  }
}
