/** The few Python `str` operations the repair loop relies on:
    `isspace` (also the regex class `\s`), `strip`, `splitlines(keepends=True)`
    and `"".join`. Strings are sequences of code points. */
module PyText {
  import opened Arith

  /** Python's `str.isspace()`, which is also what `\s` matches in a str pattern. */
  predicate IsSpace(c: char) {
    c == ' ' || ('\t' <= c <= '\r') || ('\U{1C}' <= c <= '\U{1F}')
    || c == '\U{85}' || c == '\U{A0}' || c == '\U{1680}'
    || ('\U{2000}' <= c <= '\U{200A}') || c == '\U{2028}' || c == '\U{2029}'
    || c == '\U{202F}' || c == '\U{205F}' || c == '\U{3000}'
  }

  /** The line boundaries of `str.splitlines`: \n \v \f \r \x1c \x1d \x1e \x85 U+2028 U+2029
      (and the pair \r\n, handled in LineLength). */
  predicate IsLineBreak(c: char) {
    ('\n' <= c <= '\r') || ('\U{1C}' <= c <= '\U{1E}')
    || c == '\U{85}' || c == '\U{2028}' || c == '\U{2029}'
  }

  predicate AllSpace(s: string) {
    forall k :: 0 <= k < |s| ==> IsSpace(s[k])
  }

  /** The end of the run of whitespace in `s` starting at `j`. */
  function SpaceEnd(s: string, j: nat): (e: nat)
    requires j <= |s|
    ensures j <= e <= |s|
    ensures forall k {:trigger IsSpace(s[k])} :: j <= k < e ==> IsSpace(s[k])
    ensures e < |s| ==> !IsSpace(s[e])
    decreases |s| - j
  {
    if j < |s| && IsSpace(s[j]) then SpaceEnd(s, j + 1) else j
  }

  /** The start of the run of whitespace in `s` ending at `j`, not going below `lo`. */
  function SpaceStart(s: string, lo: nat, j: nat): (b: nat)
    requires lo <= j <= |s|
    ensures lo <= b <= j
    ensures forall k {:trigger IsSpace(s[k])} :: b <= k < j ==> IsSpace(s[k])
    ensures lo < b ==> !IsSpace(s[b - 1])
    decreases j
  {
    if lo < j && IsSpace(s[j - 1]) then SpaceStart(s, lo, j - 1) else j
  }

  /** `s.strip()`: drops the leading and the trailing whitespace. */
  function Strip(s: string): (r: string)
    ensures |r| <= |s|
  {
    var a := SpaceEnd(s, 0);
    s[a..SpaceStart(s, a, |s|)]
  }

  /** `strip` gives the unique infix of `s` that neither starts nor ends with whitespace
      and is surrounded only by whitespace. */
  lemma StripSpec(s: string)
    ensures var r := Strip(s);
            exists a :: 0 <= a <= |s| - |r| && r == s[a..a + |r|]
                        && AllSpace(s[..a]) && AllSpace(s[a + |r|..])
    ensures var r := Strip(s);
            r != [] ==> !IsSpace(r[0]) && !IsSpace(r[|r| - 1])
  {
    var a := SpaceEnd(s, 0);
    var b := SpaceStart(s, a, |s|);
    StripBetween(s, a, b);
    forall k | 0 <= k < a ensures IsSpace(s[..a][k]) {
      assert s[..a][k] == s[k];
    }
    forall k | 0 <= k < |s| - b ensures IsSpace(s[b..][k]) {
      assert s[b..][k] == s[b + k];
    }
    assert a + |s[a..b]| == b;
    if a < b {
      assert s[a..b][0] == s[a] && s[a..b][b - a - 1] == s[b - 1];
    }
  }

  /** `strip` only removes characters: whatever `s` lacks, its stripped form lacks. */
  lemma StripKeepsOut(s: string, c: char)
    requires c !in s
    ensures c !in Strip(s)
  {
    var a := SpaceEnd(s, 0);
    var b := SpaceStart(s, a, |s|);
    forall k | 0 <= k < b - a ensures s[a..b][k] != c {
      assert s[a..b][k] == s[a + k];
    }
  }

  /** Leading whitespace makes no difference to `strip`. */
  lemma {:induction false} StripAfterSpace(a: string, b: string)
    requires AllSpace(a)
    ensures Strip(a + b) == Strip(b)
  {
    CoreAfterSpace(a, b, SpaceEnd(b, 0), SpaceStart(b, SpaceEnd(b, 0), |b|));
  }

  /** After leading whitespace, the whitespace-trimmed core of `a + b` is `b`'s, shifted
      by `|a|`. */
  lemma CoreAfterSpace(a: string, b: string, y: nat, v: nat)
    requires AllSpace(a)
    requires y == SpaceEnd(b, 0) && v == SpaceStart(b, y, |b|)
    ensures SpaceEnd(a + b, 0) == |a| + y
    ensures SpaceStart(a + b, |a| + y, |a + b|) == |a| + v
    ensures (a + b)[|a| + y..|a| + v] == b[y..v]
  {
    SpaceEndOverSpace(a, b, 0);
    SpaceEndShift(a, b, 0);
    SpaceStartShift(a, b, y, |b|);
    SliceAfter(a, b, y, v);
  }

  /** `strip` keeps what lies between the ends of the leading and the trailing whitespace. */
  lemma StripBetween(s: string, x: nat, u: nat)
    requires x == SpaceEnd(s, 0) && u == SpaceStart(s, x, |s|)
    ensures Strip(s) == s[x..u]
  {
  }

  lemma SliceAfter(a: string, b: string, y: nat, v: nat)
    requires y <= v <= |b|
    ensures (a + b)[|a| + y..|a| + v] == b[y..v]
  {
    assert (a + b)[|a|..] == b;
  }

  lemma {:induction false} SpaceEndOverSpace(a: string, b: string, j: nat)
    requires AllSpace(a) && j <= |a|
    ensures SpaceEnd(a + b, j) == SpaceEnd(a + b, |a|)
    decreases |a| - j
  {
    if j < |a| {
      assert (a + b)[j] == a[j];
      SpaceEndOverSpace(a, b, j + 1);
    }
  }

  lemma {:induction false} SpaceEndShift(a: string, b: string, y: nat)
    requires y <= |b|
    ensures SpaceEnd(a + b, |a| + y) == |a| + SpaceEnd(b, y)
    decreases |b| - y
  {
    if y < |b| {
      assert (a + b)[|a| + y] == b[y];
      SpaceEndShift(a, b, y + 1);
    }
  }

  lemma {:induction false} SpaceStartShift(a: string, b: string, y: nat, j: nat)
    requires y <= j <= |b|
    ensures SpaceStart(a + b, |a| + y, |a| + j) == |a| + SpaceStart(b, y, j)
    decreases j
  {
    if y < j {
      assert (a + b)[|a| + j - 1] == b[j - 1];
      SpaceStartShift(a, b, y, j - 1);
    }
  }

  /** The index just past the line of `s` that starts at `i`, as `splitlines` cuts it:
      the line runs up to and including its first line break, where \r\n counts as one. */
  function EndOfLine(s: string, i: nat): (e: nat)
    requires i < |s|
    ensures i < e <= |s|
    decreases |s| - i
  {
    if IsLineBreak(s[i]) then
      (if s[i] == '\r' && i + 1 < |s| && s[i + 1] == '\n' then i + 2 else i + 1)
    else if i + 1 == |s| then i + 1
    else EndOfLine(s, i + 1)
  }

  /** A line holds no line break but its last character, or the \r\n pair that ends it;
      unless it runs to the end of the text it does end in one, and a line ending in \r
      is not followed by \n. */
  lemma {:induction false} EndOfLineSpec(s: string, i: nat)
    requires i < |s|
    ensures var e := EndOfLine(s, i);
            (forall k :: i <= k < e - 1 && IsLineBreak(s[k]) ==> k == e - 2)
            && (i <= e - 2 && IsLineBreak(s[e - 2]) ==> s[e - 2] == '\r' && s[e - 1] == '\n')
            && (e < |s| ==> IsLineBreak(s[e - 1]))
            && (e < |s| && s[e - 1] == '\r' ==> s[e] != '\n')
    decreases |s| - i
  {
    if !IsLineBreak(s[i]) && i + 1 < |s| {
      EndOfLineSpec(s, i + 1);
    }
  }

  /** The length of the first line of `s`. */
  function LineLength(s: string): (n: nat)
    requires s != []
    ensures 0 < n <= |s|
  {
    EndOfLine(s, 0)
  }

  /** `s.splitlines(keepends=True)`. */
  function SplitLines(s: string): (lines: seq<string>)
    decreases |s|
  {
    if s == [] then [] else
    var n := LineLength(s);
    [s[..n]] + SplitLines(s[n..])
  }

  /** `"".join(lines)`. */
  function Join(lines: seq<string>): string {
    if lines == [] then "" else lines[0] + Join(lines[1..])
  }

  /** `"".join(s.splitlines(keepends=True)[:n])`: the first `n` lines of `s`, terminators
      kept. */
  function KeepLines(s: string, n: nat): string {
    Join(SplitLines(s)[..Min(n, |SplitLines(s)|)])
  }

  /** Keeping the first `n` lines yields a prefix of the text whose lines are exactly the
      first `n` lines of the text (all of them when it has fewer). */
  lemma KeepLinesSpec(s: string, n: nat)
    ensures KeepLines(s, n) <= s
    ensures SplitLines(KeepLines(s, n)) == SplitLines(s)[..Min(n, |SplitLines(s)|)]
  {
    var lines := SplitLines(s);
    var m := Min(n, |lines|);
    JoinSplitLines(s);
    JoinAppend(lines[..m], lines[m..]);
    assert lines[..m] + lines[m..] == lines;
    SplitLinesOfPrefix(s, m);
  }

  lemma {:induction false} JoinAppend(a: seq<string>, b: seq<string>)
    ensures Join(a + b) == Join(a) + Join(b)
  {
    if a != [] {
      assert (a + b)[1..] == a[1..] + b;
      JoinAppend(a[1..], b);
    } else {
      assert a + b == b;
    }
  }

  /** Splitting loses nothing: joining the lines gives back the text. */
  lemma {:induction false} JoinSplitLines(s: string)
    ensures Join(SplitLines(s)) == s
    decreases |s|
  {
    if s != [] {
      var n := LineLength(s);
      var lines := SplitLines(s);
      JoinSplitLines(s[n..]);
      assert lines == [s[..n]] + SplitLines(s[n..]);
      assert lines[1..] == SplitLines(s[n..]);
      assert Join(lines) == s[..n] + s[n..];
      assert s[..n] + s[n..] == s;
    }
  }

  /** The line of `s` starting at `i` is decided by the characters up to its end and the
      one after, so any `t` agreeing with `s` there has the same line there. */
  lemma {:induction false} EndOfLineLocal(s: string, t: string, i: nat)
    requires i < |s|
    requires EndOfLine(s, i) <= |t| && t[..EndOfLine(s, i)] == s[..EndOfLine(s, i)]
    requires EndOfLine(s, i) < |t| ==> EndOfLine(s, i) < |s| && t[EndOfLine(s, i)] == s[EndOfLine(s, i)]
    ensures EndOfLine(t, i) == EndOfLine(s, i)
    decreases |s| - i
  {
    var e := EndOfLine(s, i);
    assert t[i] == t[..e][i];
    if IsLineBreak(s[i]) {
      if s[i] == '\r' && i + 1 < |s| && s[i + 1] == '\n' {
        assert t[i + 1] == t[..e][i + 1];
      }
    } else if i + 1 < |s| {
      EndOfLineLocal(s, t, i + 1);
    }
  }

  /** The first m lines of `s`, joined and split again, are those m lines: the retained
      text is whole lines of `s`, never a line cut in two (nor \r\n split from its \r). */
  lemma {:induction false} SplitLinesOfPrefix(s: string, m: nat)
    requires m <= |SplitLines(s)|
    ensures SplitLines(Join(SplitLines(s)[..m])) == SplitLines(s)[..m]
    decreases |s|
  {
    if m > 0 {
      var n := LineLength(s);
      var lines := SplitLines(s);
      var rest := SplitLines(s[n..]);
      assert lines == [s[..n]] + rest;
      assert lines[..m] == [s[..n]] + rest[..m - 1];
      var u := Join(rest[..m - 1]);
      var t := s[..n] + u;
      assert Join(lines[..m]) == t by {
        assert (lines[..m])[1..] == rest[..m - 1];
      }
      // u is a prefix of s[n..]
      JoinSplitLines(s[n..]);
      JoinAppend(rest[..m - 1], rest[m - 1..]);
      assert rest[..m - 1] + rest[m - 1..] == rest;
      assert u <= s[n..];
      assert t[..n] == s[..n];
      if n < |t| {
        assert t[n] == u[0] == s[n..][0];
      }
      EndOfLineLocal(s, t, 0);
      assert t[..n] == s[..n] && t[n..] == u;
      SplitLinesOfPrefix(s[n..], m - 1);
    }
  }
}
