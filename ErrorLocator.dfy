/** The Error Locator: `parse_latex_errors` in util/repair_strategy.py. It scans a compiler
    log for diagnostics `<root>:<line>: <message>` that begin a log line, collects them into
    a map from line number to message, and falls back to a synthetic entry at line 0 when
    the log holds no such diagnostic but reports an emergency stop or a fatal error. */
module ErrorLocator {
  import opened Wrappers
  import opened PyText

  /** The root file name the repair loop's compiler reports against (the default argument). */
  const RootFile: string := "temp.tex"
  /** The message of the synthetic entry for an unlocated fatal failure. */
  const FatalMessage: string := "Fatal error during compilation"
  /** The two fatal markers, lower-cased; they are searched for ignoring case. */
  const EmergencyStop: string := "emergency stop"
  const FatalError: string := "fatal error"

  /** One match of the diagnostic pattern: the index where it starts, the line number
      (group 1), the captured message text (group 2, not yet stripped), and the index where
      the match ends (a '\n' or the end of the log). */
  datatype Diagnostic = Diagnostic(start: nat, line: nat, text: string, end: nat)

  predicate IsDigit(c: char) {
    '0' <= c <= '9'
  }

  /** A log line begins at `i`: the start of the log or just after a '\n'. */
  predicate IsLineStart(log: string, i: nat) {
    i < |log| && (i == 0 || log[i - 1] == '\n')
  }

  /** The end of the run of digits starting at `j` (what `\d+` consumes). */
  function DigitsEnd(s: string, j: nat): (e: nat)
    requires j <= |s|
    ensures j <= e <= |s|
    ensures forall k :: j <= k < e ==> IsDigit(s[k])
    ensures e < |s| ==> !IsDigit(s[e])
    decreases |s| - j
  {
    if j < |s| && IsDigit(s[j]) then DigitsEnd(s, j + 1) else j
  }

  /** The first '\n' at or after `j`, or the end of `s` (where a MULTILINE `$` first holds). */
  function LineEnd(s: string, j: nat): (e: nat)
    requires j <= |s|
    ensures j <= e <= |s|
    ensures forall k :: j <= k < e ==> s[k] != '\n'
    ensures e < |s| ==> s[e] == '\n'
    decreases |s| - j
  {
    if j < |s| && s[j] != '\n' then LineEnd(s, j + 1) else j
  }

  /** `int()` of the digits `s[d..e]`. */
  function DecimalValue(s: string, d: nat, e: nat): nat
    requires d <= e <= |s|
    decreases e - d
  {
    if e == d then 0 else 10 * DecimalValue(s, d, e - 1) + DigitValue(s[e - 1])
  }

  function DigitValue(c: char): nat {
    if IsDigit(c) then c as int - '0' as int else 0
  }

  /** The text `<root>:` starts at index `i`. */
  predicate RootAt(log: string, root: string, i: nat) {
    i + |root| < |log|
    && (forall k :: 0 <= k < |root| ==> log[i + k] == root[k])
    && log[i + |root|] == ':'
  }

  /** The header `<root>:<digits>:` starts at index `i`, and its second colon is at `e`. */
  predicate HeaderAt(log: string, root: string, i: nat, e: nat) {
    RootAt(log, root, i)
    && i + |root| + 1 < e < |log|
    && (forall k :: i + |root| + 1 <= k < e ==> IsDigit(log[k]))
    && log[e] == ':'
  }

  /** The match of `^<root>:(\d+):\s*(.*?)(?=\n[^:]+:|$)` (MULTILINE, DOTALL) attempted at
      index `i`. With MULTILINE, `$` holds before every '\n', so the lazy message stops at the
      first '\n' after it starts; the greedy `\s*` before it may run over line breaks, so a
      header whose line is otherwise blank takes its message from the next non-blank line. */
  function MatchAt(log: string, root: string, i: nat): (r: Option<Diagnostic>)
    requires i <= |log|
    ensures r.Some? ==> r.value.start == i && i < r.value.end <= |log|
    ensures r.Some? && r.value.end < |log| ==>
              log[r.value.end] == '\n' && log[r.value.end - 1] != '\n'
  {
    var d := i + |root| + 1;
    if RootAt(log, root, i) then
      var e := DigitsEnd(log, d);
      if d < e < |log| && log[e] == ':' then
        var ms := SpaceEnd(log, e + 1);
        var me := LineEnd(log, ms);
        assert IsSpace('\n');
        Some(Diagnostic(i, DecimalValue(log, d, e), log[ms..me], me))
      else None
    else None
  }

  /** The start of the log line after the one holding index `j` (or the end of the log). */
  function NextLine(log: string, j: nat): (r: nat)
    requires j <= |log|
    ensures j <= r <= |log| && (j < |log| ==> j < r)
    ensures r == |log| || (0 < r && log[r - 1] == '\n')
    ensures forall q :: j <= q < |log| && log[q] == '\n' ==> r <= q + 1
  {
    var e := LineEnd(log, j);
    if e < |log| then e + 1 else |log|
  }

  /** Log index `q` is where the match `d` starts, or lies strictly inside its text. */
  predicate Covers(d: Diagnostic, q: nat) {
    d.start == q || d.start < q < d.end
  }

  /** A match `d` attempted at `i` starts there, ends after it, and ends at a '\n' that
      follows the text (or at the end of the log). */
  predicate ValidMatch(log: string, i: nat, d: Diagnostic) {
    d.start == i && i < d.end <= |log|
    && (d.end < |log| ==> log[d.end] == '\n' && log[d.end - 1] != '\n')
  }

  /** For every index of the log, what the pattern matches there (nothing at the end). */
  predicate Scannable(log: string, hits: seq<Option<Diagnostic>>) {
    |hits| == |log| + 1
    && forall i: nat :: i < |hits| && hits[i].Some? ==> ValidMatch(log, i, hits[i].value)
  }

  /** The match attempted at every index of the log. */
  function Candidates(log: string, root: string): (hits: seq<Option<Diagnostic>>)
    ensures Scannable(log, hits)
    ensures forall i: nat :: i <= |log| ==> hits[i] == MatchAt(log, root, i)
  {
    seq(|log| + 1, i => if 0 <= i <= |log| then MatchAt(log, root, i) else None)
  }

  /** `finditer` from index `i` over the candidate matches `hits`: the matches in log order.
      A match can only begin at a line start, and the search resumes where the previous
      match ended. */
  function Scan(log: string, hits: seq<Option<Diagnostic>>, i: nat): seq<Diagnostic>
    requires Scannable(log, hits) && i <= |log|
    decreases |log| - i
  {
    if i == |log| then []
    else match hits[i]
      case Some(d) => [d] + Scan(log, hits, NextLine(log, d.end))
      case None => Scan(log, hits, NextLine(log, i))
  }

  /** `re.finditer(pattern, log, re.MULTILINE | re.DOTALL)`. */
  function Matches(log: string, root: string): seq<Diagnostic> {
    Scan(log, Candidates(log, root), 0)
  }

  /** The `errors[line] = msg` loop: diagnostics stored in order with their text stripped,
      a later one overwriting an earlier one at the same line. */
  function Collect(m: map<nat, string>, ds: seq<Diagnostic>): map<nat, string>
    decreases |ds|
  {
    if ds == [] then m else Collect(m[ds[0].line := Strip(ds[0].text)], ds[1..])
  }

  /** The map built from the structured diagnostics alone. */
  function StructuredErrors(log: string, root: string): map<nat, string> {
    Collect(map[], Matches(log, root))
  }

  /** `re.IGNORECASE` matching of a log character `c` against a lower-case pattern character `p`:
      the ASCII upper case, plus the non-ASCII letters Python folds onto 'i', 'k' and 's'. */
  predicate FoldsTo(c: char, p: char) {
    c == p
    || ('a' <= p <= 'z' && c as int == p as int - 32)
    || (p == 's' && c == '\U{17F}')
    || (p == 'k' && c == '\U{212A}')
    || (p == 'i' && (c == '\U{130}' || c == '\U{131}'))
  }

  predicate StartsIgnoringCase(log: string, j: nat, pat: string) {
    j + |pat| <= |log| && forall k :: 0 <= k < |pat| ==> FoldsTo(log[j + k], pat[k])
  }

  /** "Emergency stop" or "Fatal error", in any case, begins at index `j`. */
  predicate FatalMarkerAt(log: string, j: nat) {
    StartsIgnoringCase(log, j, EmergencyStop) || StartsIgnoringCase(log, j, FatalError)
  }

  /** `re.search(r"Emergency stop|Fatal error", log[i:], re.IGNORECASE)` finds something. */
  function FatalMarkerFrom(log: string, i: nat): (b: bool)
    requires i <= |log|
    ensures b <==> exists j :: i <= j < |log| && FatalMarkerAt(log, j)
    decreases |log| - i
  {
    if i == |log| then false else FatalMarkerAt(log, i) || FatalMarkerFrom(log, i + 1)
  }

  function HasFatalMarker(log: string): (b: bool)
    ensures b <==> exists j :: 0 <= j < |log| && FatalMarkerAt(log, j)
  {
    FatalMarkerFrom(log, 0)
  }

  /** What `parse_latex_errors(log, root)` returns. */
  function Errors(log: string, root: string): map<nat, string> {
    var errors := StructuredErrors(log, root);
    if errors == map[] && HasFatalMarker(log) then map[0 := FatalMessage] else errors
  }

  /** `parse_latex_errors`: fills the map match by match, then adds the fatal fallback. */
  method ParseLatexErrors(log: string, rootfile: string) returns (errors: map<nat, string>)
    ensures errors == Errors(log, rootfile)
  {
    errors := map[];
    ghost var hits := Candidates(log, rootfile);
    var i := 0;
    while i < |log|
      invariant i <= |log|
      invariant Collect(errors, Scan(log, hits, i)) == StructuredErrors(log, rootfile)
      decreases |log| - i
    {
      match MatchAt(log, rootfile, i)
      case Some(d) =>
        errors := errors[d.line := Strip(d.text)];
        i := NextLine(log, d.end);
      case None =>
        i := NextLine(log, i);
    }
    if errors == map[] && HasFatalMarker(log) {
      errors := errors[0 := FatalMessage];
    }
  }

  // ---------------------------------------------------------------------------------------
  // One match

  /** The digits of a header end at its second colon. */
  lemma {:induction false} HeaderDigits(log: string, root: string, i: nat, e: nat)
    requires HeaderAt(log, root, i, e)
    ensures DigitsEnd(log, i + |root| + 1) == e
  {
  }

  /** A match at `i` exists exactly when a header `<root>:<digits>:` starts there. */
  lemma {:induction false} MatchAtIffHeader(log: string, root: string, i: nat)
    requires i <= |log|
    ensures MatchAt(log, root, i).Some? <==> exists e: nat :: HeaderAt(log, root, i, e)
  {
    if MatchAt(log, root, i).Some? {
      var e := DigitsEnd(log, i + |root| + 1);
      assert HeaderAt(log, root, i, e);
    } else {
      forall e': nat | HeaderAt(log, root, i, e') ensures false {
        HeaderDigits(log, root, i, e');
      }
    }
  }

  /** A match at `i` is a header whose digits run to the second colon, keyed by their value. */
  lemma {:induction false} MatchAtHeader(log: string, root: string, i: nat)
    requires i <= |log| && MatchAt(log, root, i).Some?
    ensures var e := DigitsEnd(log, i + |root| + 1);
            HeaderAt(log, root, i, e) && MatchAt(log, root, i).value.line == DecimalValue(log, i + |root| + 1, e)
  {
  }

  /** After a header ending at `e` the match captures, as its text, the line from the first
      non-space character after the header (the greedy `\s*` stops there) to the next '\n'. */
  lemma {:induction false} MatchAtFields(log: string, root: string, i: nat, e: nat)
    requires HeaderAt(log, root, i, e)
    ensures var ms := SpaceEnd(log, e + 1);
            MatchAt(log, root, i)
              == Some(Diagnostic(i, DecimalValue(log, i + |root| + 1, e), log[ms..LineEnd(log, ms)],
                                 LineEnd(log, ms)))
  {
    HeaderDigits(log, root, i, e);
  }

  /** The message of a match is the stripped text between its header and its end. */
  lemma {:induction false} MatchMessage(log: string, root: string, i: nat, e: nat)
    requires HeaderAt(log, root, i, e)
    ensures MatchAt(log, root, i).Some?
    ensures Strip(MatchAt(log, root, i).value.text)
            == Strip(log[e + 1..MatchAt(log, root, i).value.end])
  {
    MatchAtFields(log, root, i, e);
    var ms := SpaceEnd(log, e + 1);
    var me := LineEnd(log, ms);
    var x := log[ms..me];
    assert log[e + 1..me] == log[e + 1..ms] + x;
    StripAfterSpace(log[e + 1..ms], x);
  }

  /** The message of a match ends at the end of a line: it holds no line break. */
  lemma {:induction false} MatchMessageOneLine(log: string, root: string, i: nat, e: nat)
    requires HeaderAt(log, root, i, e)
    ensures MatchAt(log, root, i).Some?
    ensures '\n' !in Strip(MatchAt(log, root, i).value.text)
  {
    MatchAtFields(log, root, i, e);
    var ms := SpaceEnd(log, e + 1);
    var x := log[ms..LineEnd(log, ms)];
    forall k | 0 <= k < |x| ensures x[k] != '\n' {
      assert x[k] == log[ms + k];
    }
    StripKeepsOut(x, '\n');
  }

  /** The only line breaks a match runs over are those of a blank stretch right after its
      header: a header whose line is otherwise blank takes the next non-blank line. */
  lemma {:induction false} MatchSkipsOnlyBlankLines(log: string, root: string, i: nat, e: nat)
    requires HeaderAt(log, root, i, e)
    ensures MatchAt(log, root, i).Some?
    ensures forall k :: e < k < MatchAt(log, root, i).value.end && log[k] == '\n' ==>
              AllSpace(log[e + 1..k])
  {
    MatchAtFields(log, root, i, e);
    var ms := SpaceEnd(log, e + 1);
    forall k | e < k < LineEnd(log, ms) && log[k] == '\n' ensures AllSpace(log[e + 1..k]) {
      assert k < ms;
    }
  }

  /** A header at `i` makes a match there: its key is the value of the header's digits, its
      message the stripped rest of a line, and it ends at a '\n' or at the end of the log. */
  lemma {:induction false} MatchAtSpec(log: string, root: string, i: nat, e: nat)
    requires HeaderAt(log, root, i, e)
    ensures MatchAt(log, root, i).Some?
    ensures MatchAt(log, root, i).value.line == DecimalValue(log, i + |root| + 1, e)
    ensures MatchAt(log, root, i).value.end == |log| || log[MatchAt(log, root, i).value.end] == '\n'
  {
    MatchAtFields(log, root, i, e);
  }

  // ---------------------------------------------------------------------------------------
  // The scan

  /** The `j`-th match the scan from `p` reports begins a log line at or after `p`, and it is
      what the pattern matches there. */
  lemma {:induction false} ScanSound(log: string, hits: seq<Option<Diagnostic>>, p: nat, j: nat)
    requires Scannable(log, hits) && (p == |log| || IsLineStart(log, p))
    requires j < |Scan(log, hits, p)|
    ensures p <= Scan(log, hits, p)[j].start
    ensures IsLineStart(log, Scan(log, hits, p)[j].start)
    ensures hits[Scan(log, hits, p)[j].start] == Some(Scan(log, hits, p)[j])
    decreases |log| - p
  {
    var r := hits[p];
    var n := NextLine(log, if r.Some? then r.value.end else p);
    var rest := Scan(log, hits, n);
    if r.Some? {
      assert Scan(log, hits, p) == [r.value] + rest;
      if j > 0 {
        ScanSound(log, hits, n, j - 1);
      }
    } else {
      assert Scan(log, hits, p) == rest;
      ScanSound(log, hits, n, j);
    }
  }

  /** The matches come in log order and do not overlap: the `j`-th ends before the next starts. */
  lemma {:induction false} ScanOrdered(log: string, hits: seq<Option<Diagnostic>>, p: nat, j: nat)
    requires Scannable(log, hits) && p <= |log|
    requires j + 1 < |Scan(log, hits, p)|
    ensures Scan(log, hits, p)[j].end < Scan(log, hits, p)[j + 1].start
    decreases |log| - p
  {
    var r := hits[p];
    var n := NextLine(log, if r.Some? then r.value.end else p);
    var rest := Scan(log, hits, n);
    if r.Some? {
      assert Scan(log, hits, p) == [r.value] + rest;
      if j == 0 {
        ScanStartsFrom(log, hits, n, 0);
      } else {
        ScanOrdered(log, hits, n, j - 1);
      }
    } else {
      assert Scan(log, hits, p) == rest;
      ScanOrdered(log, hits, n, j);
    }
  }

  /** The scan from `p` reports nothing before `p`. */
  lemma {:induction false} ScanStartsFrom(log: string, hits: seq<Option<Diagnostic>>, p: nat, j: nat)
    requires Scannable(log, hits) && p <= |log|
    requires j < |Scan(log, hits, p)|
    ensures p <= Scan(log, hits, p)[j].start
    decreases |log| - p
  {
    var r := hits[p];
    var n := NextLine(log, if r.Some? then r.value.end else p);
    var rest := Scan(log, hits, n);
    if r.Some? {
      assert Scan(log, hits, p) == [r.value] + rest;
      if j > 0 {
        ScanStartsFrom(log, hits, n, j - 1);
      }
    } else {
      assert Scan(log, hits, p) == rest;
      ScanStartsFrom(log, hits, n, j);
    }
  }

  /** Every log line from `p` on that begins with a header is reported by the scan, or lies
      inside the text of an earlier match (whose blank header line swallowed it). */
  lemma {:induction false} ScanComplete(log: string, hits: seq<Option<Diagnostic>>, p: nat, q: nat)
    requires Scannable(log, hits) && p <= q && IsLineStart(log, q) && hits[q].Some?
    ensures exists j :: 0 <= j < |Scan(log, hits, p)| && Covers(Scan(log, hits, p)[j], q)
    decreases |log| - p
  {
    var r := hits[p];
    var n := NextLine(log, if r.Some? then r.value.end else p);
    var ms := Scan(log, hits, p);
    var rest := Scan(log, hits, n);
    if r.Some? && Covers(r.value, q) {
      assert ms[0] == r.value;
    } else {
      ScanResumesBefore(log, hits, p, q);
      ScanComplete(log, hits, n, q);
      var j :| 0 <= j < |rest| && Covers(rest[j], q);
      if r.Some? {
        assert ms == [r.value] + rest;
        assert ms[j + 1] == rest[j];
      } else {
        assert ms == rest;
      }
    }
  }

  /** A log line at `q` beyond `p` and not inside the match at `p` is not skipped: the scan
      resumes at or before it. */
  lemma {:induction false} ScanResumesBefore(log: string, hits: seq<Option<Diagnostic>>, p: nat, q: nat)
    requires Scannable(log, hits) && p <= q && IsLineStart(log, q) && hits[q].Some?
    requires hits[p].Some? ==> !Covers(hits[p].value, q)
    ensures NextLine(log, if hits[p].Some? then hits[p].value.end else p) <= q
  {
    assert log[q - 1] == '\n';
  }

  // ---------------------------------------------------------------------------------------
  // The dictionary loop

  lemma {:induction false} CollectKeys(m: map<nat, string>, ds: seq<Diagnostic>, k: nat)
    ensures k in Collect(m, ds) <==> k in m || exists j :: 0 <= j < |ds| && ds[j].line == k
    decreases |ds|
  {
    if ds != [] {
      CollectKeys(m[ds[0].line := Strip(ds[0].text)], ds[1..], k);
      if exists j :: 0 <= j < |ds[1..]| && ds[1..][j].line == k {
        var j :| 0 <= j < |ds[1..]| && ds[1..][j].line == k;
        assert ds[j + 1].line == k;
      }
      if exists j :: 0 <= j < |ds| && ds[j].line == k {
        var j :| 0 <= j < |ds| && ds[j].line == k;
        if j > 0 { assert ds[1..][j - 1].line == k; }
      }
    }
  }

  lemma {:induction false} CollectKeeps(m: map<nat, string>, ds: seq<Diagnostic>, k: nat)
    requires k in m
    requires forall j :: 0 <= j < |ds| ==> ds[j].line != k
    ensures k in Collect(m, ds) && Collect(m, ds)[k] == m[k]
    decreases |ds|
  {
    if ds != [] {
      CollectKeeps(m[ds[0].line := Strip(ds[0].text)], ds[1..], k);
    }
  }

  /** The last diagnostic at a line decides its message. */
  lemma {:induction false} CollectLastWins(m: map<nat, string>, ds: seq<Diagnostic>, j: nat)
    requires j < |ds|
    requires forall j' :: j < j' < |ds| ==> ds[j'].line != ds[j].line
    ensures ds[j].line in Collect(m, ds) && Collect(m, ds)[ds[j].line] == Strip(ds[j].text)
    decreases |ds|
  {
    var m' := m[ds[0].line := Strip(ds[0].text)];
    if j == 0 {
      CollectKeeps(m', ds[1..], ds[0].line);
    } else {
      CollectLastWins(m', ds[1..], j - 1);
    }
  }

  // ---------------------------------------------------------------------------------------
  // parse_latex_errors

  /** Each match `finditer` reports begins a log line and is what the pattern matches there. */
  lemma {:induction false} MatchesSound(log: string, root: string, j: nat)
    requires j < |Matches(log, root)|
    ensures IsLineStart(log, Matches(log, root)[j].start)
    ensures MatchAt(log, root, Matches(log, root)[j].start) == Some(Matches(log, root)[j])
  {
    ScanSound(log, Candidates(log, root), 0, j);
  }

  /** Every key is the number in a header `<root>:<digits>:` that begins a log line. */
  lemma {:induction false} ErrorKeyIsHeaderLine(log: string, root: string, k: nat)
    requires k in StructuredErrors(log, root)
    ensures exists i: nat, e: nat :: IsLineStart(log, i) && HeaderAt(log, root, i, e)
                           && DecimalValue(log, i + |root| + 1, e) == k
  {
    var ms := Matches(log, root);
    CollectKeys(map[], ms, k);
    var j :| 0 <= j < |ms| && ms[j].line == k;
    MatchesSound(log, root, j);
    MatchedHeaderLine(log, root, ms[j].start, k);
  }

  /** A match at the start of a log line is a header line carrying the match's number. */
  lemma MatchedHeaderLine(log: string, root: string, p: nat, k: nat)
    requires IsLineStart(log, p)
    requires MatchAt(log, root, p).Some? && MatchAt(log, root, p).value.line == k
    ensures exists i: nat, e: nat :: IsLineStart(log, i) && HeaderAt(log, root, i, e)
                           && DecimalValue(log, i + |root| + 1, e) == k
  {
    MatchAtHeader(log, root, p);
    var e := DigitsEnd(log, p + |root| + 1);
    assert IsLineStart(log, p) && HeaderAt(log, root, p, e) && DecimalValue(log, p + |root| + 1, e) == k;
  }

  /** A log line beginning with a header makes the structured map non-empty, so the fatal
      marker is then ignored. */
  lemma {:induction false} HeaderLineIsReported(log: string, root: string, i: nat, e: nat)
    requires IsLineStart(log, i) && HeaderAt(log, root, i, e)
    ensures exists j :: 0 <= j < |Matches(log, root)| && Covers(Matches(log, root)[j], i)
    ensures Errors(log, root) == StructuredErrors(log, root) != map[]
  {
    MatchAtSpec(log, root, i, e);
    ScanComplete(log, Candidates(log, root), 0, i);
    var ms := Matches(log, root);
    CollectKeys(map[], ms, ms[0].line);
  }

  /** A header line that no earlier match swallows into its text puts its number among
      the keys of the result. */
  lemma {:induction false} HeaderLineIsKey(log: string, root: string, i: nat, e: nat)
    requires IsLineStart(log, i) && HeaderAt(log, root, i, e)
    requires forall j :: 0 <= j < |Matches(log, root)| ==>
               !(Matches(log, root)[j].start < i < Matches(log, root)[j].end)
    ensures DecimalValue(log, i + |root| + 1, e) in Errors(log, root)
  {
    HeaderLineIsReported(log, root, i, e);
    var ms := Matches(log, root);
    var j :| 0 <= j < |ms| && Covers(ms[j], i);
    assert ms[j].start == i;
    MatchesSound(log, root, j);
    MatchAtSpec(log, root, i, e);
    CollectKeys(map[], ms, ms[j].line);
  }

  /** The message kept at a line is that of the last diagnostic reporting it. */
  lemma {:induction false} ErrorValueIsLastMessage(log: string, root: string, j: nat)
    requires j < |Matches(log, root)|
    requires forall j' :: j < j' < |Matches(log, root)| ==>
               Matches(log, root)[j'].line != Matches(log, root)[j].line
    ensures var d := Matches(log, root)[j];
            d.line in Errors(log, root) && Errors(log, root)[d.line] == Strip(d.text)
  {
    CollectLastWins(map[], Matches(log, root), j);
  }

  /** Without a header line the result is the single synthetic entry at line 0 when the log
      reports an emergency stop or a fatal error, and empty otherwise. */
  lemma {:induction false} FatalFallback(log: string, root: string)
    requires forall i: nat, e: nat :: IsLineStart(log, i) ==> !HeaderAt(log, root, i, e)
    ensures Errors(log, root) == if HasFatalMarker(log) then map[0 := FatalMessage] else map[]
  {
    var ms := Matches(log, root);
    if ms != [] {
      ScanSound(log, Candidates(log, root), 0, 0);
      MatchAtIffHeader(log, root, ms[0].start);
      assert false;
    }
  }
}
