/** Characters, lines and small string helpers shared by every rewriter.
    Strings are sequences of characters. The character classes follow the
    definitions JavaScript regular expressions use without the `u` flag. */
module Text {

  datatype Option<T> = None | Some(value: T)

  /** A line terminator: what `.` never matches and what `^` and `$` look at
      under the multiline flag. */
  predicate IsLineTerminator(c: char) {
    c == '\n' || c == '\r' || c == '\U{2028}' || c == '\U{2029}'
  }

  /** The class `\s`: white space and line terminators. */
  predicate IsSpace(c: char) {
    IsLineTerminator(c) || c == '\t' || c == '\U{000B}' || c == '\U{000C}' || c == ' '
    || c == '\U{00A0}' || c == '\U{1680}' || ('\U{2000}' <= c <= '\U{200A}')
    || c == '\U{202F}' || c == '\U{205F}' || c == '\U{3000}' || c == '\U{FEFF}'
  }

  /** The class `\w` (unchanged by the case-insensitive flag without `u`). */
  predicate IsWordChar(c: char) {
    ('a' <= c <= 'z') || ('A' <= c <= 'Z') || ('0' <= c <= '9') || c == '_'
  }

  /** Case folding of the case-insensitive flag, restricted to the ASCII
      letters: no other character folds onto an ASCII letter. */
  function LowerAscii(c: char): char {
    if 'A' <= c <= 'Z' then (c as int + 32) as char else c
  }

  /** Position p of s is the start of a line (`^` under the multiline flag). */
  predicate LineStart(s: string, p: nat)
    requires p <= |s|
  {
    p == 0 || IsLineTerminator(s[p - 1])
  }

  /** The character c does not occur in s. */
  predicate Lacks(s: string, c: char) {
    forall i | 0 <= i < |s| :: s[i] != c
  }

  /** No character of s is a line terminator. */
  predicate SingleLine(s: string) {
    forall i | 0 <= i < |s| :: !IsLineTerminator(s[i])
  }

  /** The elements of xs with sep between consecutive ones (`Array.prototype.join`). */
  function Join(xs: seq<string>, sep: string): string {
    if |xs| == 0 then ""
    else if |xs| == 1 then xs[0]
    else xs[0] + sep + Join(xs[1..], sep)
  }

  function Digit(d: nat): char
    requires d < 10
  {
    "0123456789"[d]
  }

  /** Decimal rendering of a number inside a template literal. */
  function NatToString(n: nat): string {
    if n < 10 then [Digit(n)] else NatToString(n / 10) + [Digit(n % 10)]
  }

  /** n copies of c. */
  function Repeat(c: char, n: nat): (r: string)
    ensures |r| == n
    ensures forall i | 0 <= i < n :: r[i] == c
  {
    if n == 0 then [] else [c] + Repeat(c, n - 1)
  }

  /** Where the element xs[i] sits inside Join(xs, sep): at the offset o
      just after the joined elements before it and one separator. */
  function JoinOffset(xs: seq<string>, sep: string, i: nat): nat
    requires i < |xs|
  {
    if i == 0 then 0 else |xs[0]| + |sep| + JoinOffset(xs[1..], sep, i - 1)
  }

  /** A slice of the right operand of a concatenation. */
  lemma SliceRight(a: string, b: string, x: nat, y: nat)
    requires x <= y <= |b|
    ensures (a + b)[|a| + x..|a| + y] == b[x..y]
  {
  }

  /** Text in front of a span written in five pieces and what follows. */
  lemma InFront(a: string, b: string, c: string, d: string, e: string, f: string, g: string)
    ensures a + (b + c + d + e + f + g) == a + b + c + d + e + f + g
  {
  }

  /** Text in front of a span written in three pieces and what follows. */
  lemma InFrontShort(a: string, b: string, c: string, d: string, e: string)
    ensures a + (b + c + d + e) == a + b + c + d + e
  {
  }

  /** A replacement written in three pieces, between two texts. */
  lemma Spliced(a: string, b: string, c: string, d: string, e: string)
    ensures a + (b + c + d) + e == a + b + c + d + e
  {
  }

  /** A slice is the slice one shorter and its last element. */
  lemma SliceSnoc<T>(xs: seq<T>, n: nat, m: nat)
    requires n < m <= |xs|
    ensures xs[n..m] == xs[n..m - 1] + [xs[m - 1]]
  {
  }

  lemma {:induction false} JoinPosition(xs: seq<string>, sep: string, i: nat)
    requires i < |xs|
    ensures JoinOffset(xs, sep, i) + |xs[i]| <= |Join(xs, sep)|
    ensures Join(xs, sep)[JoinOffset(xs, sep, i)..JoinOffset(xs, sep, i) + |xs[i]|] == xs[i]
    ensures 0 < i ==> |sep| <= JoinOffset(xs, sep, i)
                      && Join(xs, sep)[JoinOffset(xs, sep, i) - |sep|..JoinOffset(xs, sep, i)] == sep
  {
    if i == 0 {
      if |xs| > 1 {
        assert Join(xs, sep) == xs[0] + (sep + Join(xs[1..], sep));
      }
      assert Join(xs, sep)[..|xs[0]|] == xs[0];
    } else {
      JoinPosition(xs[1..], sep, i - 1);
      JoinStep(xs, sep, i);
    }
  }

  /** An element and the separator before it, found in rest at o, are
      found at off = |a| + o in j = a + rest, where a ends with the
      separator. */
  lemma ShiftSlices(j: string, off: nat, a: string, rest: string, sep: string, o: nat, x: string)
    requires j == a + rest && off == |a| + o
    requires |sep| <= |a| && a[|a| - |sep|..] == sep
    requires o + |x| <= |rest| && rest[o..o + |x|] == x
    requires 0 < o ==> |sep| <= o && rest[o - |sep|..o] == sep
    ensures off + |x| <= |j| && j[off..off + |x|] == x
    ensures |sep| <= off && j[off - |sep|..off] == sep
  {
    SliceRight(a, rest, o, o + |x|);
    if o == 0 {
      assert (a + rest)[|a| - |sep|..|a|] == a[|a| - |sep|..];
    } else {
      SliceRight(a, rest, o - |sep|, o);
    }
  }

  /** The offset of a later element, moved past the first element and a
      separator. */
  lemma JoinStep(xs: seq<string>, sep: string, i: nat)
    requires 0 < i < |xs|
    requires JoinOffset(xs[1..], sep, i - 1) + |xs[i]| <= |Join(xs[1..], sep)|
    requires Join(xs[1..], sep)[JoinOffset(xs[1..], sep, i - 1)..JoinOffset(xs[1..], sep, i - 1) + |xs[i]|] == xs[i]
    requires 1 < i ==> |sep| <= JoinOffset(xs[1..], sep, i - 1)
                       && Join(xs[1..], sep)[JoinOffset(xs[1..], sep, i - 1) - |sep|..JoinOffset(xs[1..], sep, i - 1)] == sep
    ensures JoinOffset(xs, sep, i) + |xs[i]| <= |Join(xs, sep)|
    ensures Join(xs, sep)[JoinOffset(xs, sep, i)..JoinOffset(xs, sep, i) + |xs[i]|] == xs[i]
    ensures |sep| <= JoinOffset(xs, sep, i)
            && Join(xs, sep)[JoinOffset(xs, sep, i) - |sep|..JoinOffset(xs, sep, i)] == sep
  {
    var rest := Join(xs[1..], sep);
    var a := xs[0] + sep;
    var o := JoinOffset(xs[1..], sep, i - 1);
    assert a[|a| - |sep|..] == sep;
    assert 0 < o ==> 1 < i;
    ShiftSlices(Join(xs, sep), JoinOffset(xs, sep, i), a, rest, sep, o, xs[i]);
  }

  /** Join(xs, sep) from the offset of xs[k] on is the join of xs[k..]. */
  lemma {:induction false} JoinTail(xs: seq<string>, sep: string, k: nat)
    requires k < |xs|
    ensures JoinOffset(xs, sep, k) <= |Join(xs, sep)|
    ensures Join(xs, sep)[JoinOffset(xs, sep, k)..] == Join(xs[k..], sep)
  {
    if k == 0 {
      assert xs[0..] == xs;
    } else {
      JoinTail(xs[1..], sep, k - 1);
      var a := xs[0] + sep;
      var o := JoinOffset(xs[1..], sep, k - 1);
      assert Join(xs, sep) == a + Join(xs[1..], sep);
      assert (a + Join(xs[1..], sep))[|a| + o..] == Join(xs[1..], sep)[o..];
      assert xs[1..][k - 1..] == xs[k..];
    }
  }

  /** Joining with the empty separator puts the first element in front. */
  lemma JoinHead(xs: seq<string>)
    requires xs != []
    ensures Join(xs, "") == xs[0] + Join(xs[1..], "")
  {
    if |xs| == 1 {
      assert xs[0] + "" == xs[0];
    }
  }

  /** Joining with the empty separator is concatenation. */
  lemma {:induction false} JoinConcat(a: seq<string>, b: seq<string>)
    ensures Join(a + b, "") == Join(a, "") + Join(b, "")
  {
    if a == [] {
      assert a + b == b;
    } else {
      JoinHead(a + b);
      assert (a + b)[1..] == a[1..] + b;
      JoinConcat(a[1..], b);
      JoinHead(a);
    }
  }

  /** Joining with one more element at the end adds a separator and it. */
  lemma {:induction false} JoinSnoc(xs: seq<string>, x: string, sep: string)
    requires xs != []
    ensures Join(xs + [x], sep) == Join(xs, sep) + sep + x
  {
    if |xs| == 1 {
      assert (xs + [x])[1..] == [x];
    } else {
      assert (xs + [x])[1..] == xs[1..] + [x];
      JoinSnoc(xs[1..], x, sep);
    }
  }
}
