# Repair loop of a LaTeX/TikZ generator, in Dafny

The system turns an image and a prompt into TikZ source. It asks a generative model for
code, compiles it, and, while compilation fails at a located line, rolls the source back
to whole lines before that line and asks the model to continue from there. This project
models the two parts of `util/repair_strategy.py` that decide that loop and proves what
they promise:

- `parse_latex_errors` (module `ErrorLocator`): the compiler log becomes a map from source
  line to message. The map is built from the `temp.tex:<digits>: <message>` diagnostics
  that start a log line; the last one at a line wins. When there are none, a log that says
  "Emergency stop" or "Fatal error" (in any case) gives the single entry
  `0 -> "Fatal error during compilation"`.
- `_recursive_repair` inside `generate_and_repair` (module `RepairController`), one call of
  which does four things:
  - compile `snippet + generated code` and append the record to `all_attempts`;
  - stop on a construction failure, on content, on a spent budget or on an empty error map;
  - otherwise keep the first `max(first_error - offset, 0)` lines, where `offset` resets
    to 1 when the first error line moves and otherwise grows fourfold up to 4096;
  - recurse with one attempt less.

Module `PyText` holds the Python `str` operations these rely on: `isspace`/`\s`, `strip`,
`splitlines(keepends=True)` and `"".join`. Module `Wrappers` holds `Option`.

Shape of the model:

- The parser is a loop that fills a map (`ErrorLocator.ParseLatexErrors`). It is proved
  equal to a functional specification (`Errors`), which describes the regular expression
  as a function `MatchAt` of the position plus a `finditer`-style `Scan` over positions.
- `RepairController.RepairCall` is one call, as a method. `RepairController.GenerateAndRepair`
  is the whole recursion, as a `while` loop over its four arguments that appends each call's
  record to a sequence.
- Both methods are proved equal to ghost specifications. One call is `Step` and a session
  is `Session`. `Session` is an instance of `Run`, the recursion driven by any step
  function, and the session lemmas are proved once for `Run`.
- The model generator and the compiler are oracles passed as functions.
  - `generate(k, snippet)` is what the `k`-th call of the session returns for that
    snippet. The index stands in for sampling, so repeated snippets may get different code.
  - `compile(code)` is what constructing `TikzDocument(code=...)` yields: `has_content`,
    `compiled_with_errors` and `log`, or the text of the exception it raised.

Behaviour the model follows because the code does it, where a prose account of the loop
could read otherwise:

- A diagnostic's message runs only to the end of its line. With `re.MULTILINE`, `$` holds
  before every `\n`, so the lazy `(.*?)` stops at the first one. The lookahead never
  carries a message on to the next diagnostic.
- The greedy `\s*` after `<digits>:` may cross line breaks. A header whose own line is
  otherwise blank therefore takes its message from the next non-blank line, and that line
  cannot then start a match of its own (`ErrorLocator.MatchSkipsOnlyBlankLines`,
  `ErrorLocator.ScanComplete`).
- The offset is multiplied by 4, not doubled, while the first error line repeats.
- The retained snippet is whole leading lines of the code just compiled. It is not always
  a strict prefix: when the code has fewer lines than `first_error - offset`, all of it is
  kept.
- The budget test is `attempts_left <= 0`, so a negative `max_attempts` behaves like 0.

## Model

| member | source | states |
|---|---|---|
| ErrorLocator.Errors | util/repair_strategy.py:8-21 | what `parse_latex_errors` returns, defined as the structured map, or the fatal entry when that map is empty and the log has a marker; characterised by `ErrorKeyIsHeaderLine`, `HeaderLineIsKey`, `ErrorValueIsLastMessage` and `FatalFallback` |
| ErrorLocator.Matches | util/repair_strategy.py:14 | `finditer` over the whole log: the scan from index 0; characterised by `MatchesSound`, `ScanOrdered` and `ScanComplete` |
| ErrorLocator.Scan | util/repair_strategy.py:14 | `finditer` from a line start: the match there if any, then the scan from the line after the match end (or from the next line); characterised by `ScanSound`, `ScanOrdered`, `ScanStartsFrom`, `ScanComplete` and `ScanResumesBefore` |
| ErrorLocator.Collect | util/repair_strategy.py:14-17 | the `errors[line] = msg` assignments in match order; characterised by `CollectKeys`, `CollectKeeps` and `CollectLastWins` |
| ErrorLocator.HasFatalMarker | util/repair_strategy.py:19 | the `re.search` for "Emergency stop" or "Fatal error" with `re.IGNORECASE`: true exactly when a marker occurs somewhere in the log, ignoring case |
| ErrorLocator.ParseLatexErrors | util/repair_strategy.py:8-21 | the map filled match by match and then given the fatal fallback is exactly `Errors(log, rootfile)` |
| ErrorLocator.MatchAt | util/repair_strategy.py:10-13 | a match attempted at `i` starts at `i` and ends within the log, at a `\n` that does not follow another `\n`, or at the end of the log |
| ErrorLocator.HeaderDigits | util/repair_strategy.py:11 | the `(\d+)` group of a header runs exactly to the colon after the digits |
| ErrorLocator.MatchAtIffHeader | util/repair_strategy.py:11 | the pattern matches at `i` if and only if `<root>:<digits>:` starts there |
| ErrorLocator.MatchAtHeader | util/repair_strategy.py:11-15 | a match is a header whose key is the decimal value of its digits |
| ErrorLocator.MatchAtFields | util/repair_strategy.py:11 | the captured text starts at the first non-space after the header and ends at the next `\n` or at the end of the log |
| ErrorLocator.MatchMessage | util/repair_strategy.py:11-16 | the message is the stripped text between the header and the end of the match |
| ErrorLocator.MatchMessageOneLine | util/repair_strategy.py:11-16 | the stored message holds no `\n` (other line boundaries such as `\r` or U+2028 may stay inside it) |
| ErrorLocator.MatchSkipsOnlyBlankLines | util/repair_strategy.py:11 | every line break a match crosses ends a blank stretch right after its header |
| ErrorLocator.MatchAtSpec | util/repair_strategy.py:11-16 | a header at `i` yields a match keyed by its digits' value that ends at a `\n` or at the end of the log |
| ErrorLocator.ScanSound | util/repair_strategy.py:14 | every reported match starts a log line at or after the scan's start and is what the pattern matches there |
| ErrorLocator.ScanOrdered | util/repair_strategy.py:14 | `finditer`'s matches come in log order and do not overlap |
| ErrorLocator.ScanStartsFrom | util/repair_strategy.py:14 | the scan from `p` reports nothing before `p` |
| ErrorLocator.ScanComplete | util/repair_strategy.py:14 | every header line from `p` on is reported, or lies inside the text of an earlier match |
| ErrorLocator.ScanResumesBefore | util/repair_strategy.py:14 | after a match, the search resumes no later than the next header line that the match does not cover |
| ErrorLocator.MatchesSound | util/repair_strategy.py:14 | each match of the whole log starts a log line and is the pattern's match there |
| ErrorLocator.CollectKeys | util/repair_strategy.py:14-17 | a line is a key exactly when it was one before or some match reports it |
| ErrorLocator.CollectKeeps | util/repair_strategy.py:14-17 | a key that no match reports keeps its earlier message |
| ErrorLocator.CollectLastWins | util/repair_strategy.py:17 | the last match at a line decides that line's stripped message |
| ErrorLocator.ErrorKeyIsHeaderLine | util/repair_strategy.py:11-17 | every key is the number in a `<root>:<digits>:` header that starts a log line |
| ErrorLocator.HeaderLineIsReported | util/repair_strategy.py:14-20 | a header line is reported, or lies inside an earlier match's text; either way the map is non-empty and the fatal marker is ignored |
| ErrorLocator.HeaderLineIsKey | util/repair_strategy.py:14-17 | a header line that no match swallows into its text puts the value of its digits among the keys |
| ErrorLocator.ErrorValueIsLastMessage | util/repair_strategy.py:14-17 | the value at a line is the stripped message of the last match reporting that line |
| ErrorLocator.FatalMarkerFrom | util/repair_strategy.py:19 | the search is true exactly when "Emergency stop" or "Fatal error" occurs, ignoring case |
| ErrorLocator.FatalFallback | util/repair_strategy.py:19-21 | without header lines the result is `{0: "Fatal error during compilation"}` if the log has a fatal marker, and empty otherwise |
| PyText.Strip | util/repair_strategy.py:16 | `str.strip()`: no longer than its input; characterised by `StripSpec`, `StripKeepsOut` and `StripAfterSpace` |
| PyText.SplitLines | util/repair_strategy.py:103 | `splitlines(keepends=True)`: each line runs to its first line boundary, terminator kept; characterised by `EndOfLineSpec`, `JoinSplitLines` and `SplitLinesOfPrefix` |
| PyText.Join | util/repair_strategy.py:105 | `"".join(lines)`; characterised by `JoinAppend` and `JoinSplitLines` |
| PyText.KeepLines | util/repair_strategy.py:103-105 | `"".join(full_code.splitlines(keepends=True)[:n])`; characterised by `KeepLinesSpec` |
| PyText.StripSpec | util/repair_strategy.py:16 | `strip` gives the infix surrounded only by whitespace; it neither starts nor ends with whitespace |
| PyText.StripKeepsOut | util/repair_strategy.py:16 | `strip` adds no character |
| PyText.StripAfterSpace | util/repair_strategy.py:11-16 | whitespace in front of a message (what `\s*` skips) does not change the stripped message |
| PyText.EndOfLineSpec | util/repair_strategy.py:103 | a `splitlines` line holds a line break only at its end, where `\r\n` counts as one |
| PyText.JoinAppend | util/repair_strategy.py:105 | joining two lists of lines is joining each and concatenating |
| PyText.JoinSplitLines | util/repair_strategy.py:103-105 | joining all the lines gives back the text |
| PyText.SplitLinesOfPrefix | util/repair_strategy.py:103-105 | the first `m` lines, joined and split again, are those `m` lines, so no line is cut |
| PyText.KeepLinesSpec | util/repair_strategy.py:103-105 | the kept text is a prefix of the code whose lines are its first `min(n, #lines)` lines |
| RepairController.FullCode | util/repair_strategy.py:75 | the compiled code is always `snippet + new_code` |
| RepairController.NextOffset | util/repair_strategy.py:97-101 | the offset is 1 when the first error line moved; within [1, 4096] it stays there; while the line repeats it grows or sits at 4096 |
| RepairController.BackoffSequence | util/repair_strategy.py:98-101 | while the first error line stays the same the offsets are `min(4^n, 4096)`: 1, 4, 16, ..., 4096 |
| RepairController.KeepCount | util/repair_strategy.py:104 | with a positive offset fewer lines than the error line are kept; none exactly when the offset reaches the error line |
| RepairController.MinKey | util/repair_strategy.py:97 | `min(errors.keys())`; characterised by `MinKeyIsLeast` |
| RepairController.MinKeyIsLeast | util/repair_strategy.py:97 | the first error is a key and no key is smaller |
| RepairController.FirstError | util/repair_strategy.py:97 | the loop over the keys returns their minimum |
| RepairController.Step | util/repair_strategy.py:73-106 | one call of `_recursive_repair` as a function: the record's code is `snippet + generate(k, snippet)`, and a retry happens only with budget left and lowers it by one; characterised further by `StepStopsWhen`, `ConstructionFailureStops`, `RetryRollsBack` and `RetainedSnippet` |
| RepairController.Run | util/repair_strategy.py:79-106 | the recursion of `_recursive_repair` for any step that spends one attempt per retry: the record of each call, until one stops; characterised by `RunLength` and `RunAt` |
| RepairController.Session | util/repair_strategy.py:73-109 | the records `all_attempts` receives from a session, `Run` with the real call; characterised by the `Session*` lemmas and equal to what `GenerateAndRepair` appends |
| RepairController.RepairCall | util/repair_strategy.py:73-106 | one call, as a method, yields exactly the specified outcome `Step` |
| RepairController.GenerateAndRepair | util/repair_strategy.py:73-109 | the loop appends exactly the session's records; the final document is the last one; there are between 1 and `max(max_attempts, 0) + 1` of them |
| RepairController.SessionUnfold | util/repair_strategy.py:79-106 | a session is the call's record followed, on a retry, by the session from the new state |
| RepairController.StepStopsWhen | util/repair_strategy.py:77-95 | a call stops exactly on a construction failure, content, a spent budget or an empty error map |
| RepairController.ConstructionFailureStops | util/repair_strategy.py:77-88 | a construction failure stops at once, whatever the budget, with a record that has no content, counts as compiled with errors, keeps the code and logs `TikzDocument error: <e>` |
| RepairController.RetryFollowsLocatedError | util/repair_strategy.py:90-95 | a retry follows a compiled document without content whose log locates an error, with budget left |
| RepairController.RetryRollsBack | util/repair_strategy.py:93-106 | on a retry the first error is the least key, the offset follows the reset or backoff rule, and the snippet is the first `max(first - offset, 0)` lines |
| RepairController.RetainedSnippet | util/repair_strategy.py:103-105 | the new snippet is a prefix of the code made of its leading lines, fewer than the first error line |
| RepairController.RunLength | util/repair_strategy.py:90-106 | any run records between 1 and `attempts_left + 1` attempts, one per state |
| RepairController.RunAt | util/repair_strategy.py:73-106 | the `j`-th record comes from the `j`-th state with `j` fewer attempts left; every call but the last recursed into the next state, and the last one stopped |
| RepairController.RunCompilesSnippet | util/repair_strategy.py:74-75 | in any run whose calls compile snippet plus generated code, so does every record |
| RepairController.RunRetriesOnLocatedErrors | util/repair_strategy.py:90-106 | in any run, every record but the last is a document without content whose log locates an error |
| RepairController.RunOffsetsInRange | util/repair_strategy.py:98-101 | in any run whose calls keep the offset in [1, 4096], every state's offset stays there |
| RepairController.RunRollsBackToLines | util/repair_strategy.py:103-106 | in any run, each next snippet is whole leading lines of the previous code, fewer than its first error line |
| RepairController.SessionLength | util/repair_strategy.py:90-106 | a session records between 1 and `attempts_left + 1` attempts |
| RepairController.SessionCompilesSnippet | util/repair_strategy.py:74-79 | the `j`-th record's code is the `j`-th snippet followed by the `j`-th generator output |
| RepairController.SessionRetriesOnLocatedErrors | util/repair_strategy.py:90-106 | every record but the last is a document without content whose log locates an error, made with `attempts_left - j > 0` |
| RepairController.SessionOffsetsInRange | util/repair_strategy.py:98-101 | from an offset in [1, 4096], as at the start, every offset of the session stays in [1, 4096] |
| RepairController.SessionSnippetsAreRetainedLines | util/repair_strategy.py:103-106 | every retained snippet is whole leading lines of the previous code, fewer than the first error line, so the failing line is dropped |

## Left out

- `_generate` (util/repair_strategy.py:35-71) is the oracle `generate(k, snippet)`. It
  builds the prompt, runs the sampled vision-language model and extracts code with
  regular expressions. It can return any string, the empty one included.
- `TikzDocument` (from `automatikz`) is not part of this model. Only what it yields is
  modelled: `has_content`, `compiled_with_errors` and `log`, or the text of the exception
  its construction raises.
- `traceback.print_exc()` and the GPU and model calls are side effects and are left out.
- test/generate.py and util/save_and_complie.py are not part of this model. They hold
  model loading, dataset and image I/O, and writing PDFs, PNGs, logs and JSON.
- `\d` is modelled as the ASCII digits. Python's `\d` on `str` also accepts other Unicode
  decimal digits, which `int()` would convert.
- `re.IGNORECASE` in the fatal-marker search is modelled for the letters of "emergency stop"
  and "fatal error": ASCII case, plus U+017F, U+212A, U+0130 and U+0131, which Python folds
  onto s, k and i.
- The `return_all` parameter is unused by the code, so nothing models it.
- `all_attempts` is a Python list shared by the closure and returned to the caller. The
  model treats it as a value sequence that the loop extends, and does not capture
  aliasing.
- Keys are unbounded integers. Recent CPython releases limit `int()` on strings to 4300
  digits, so `int(match.group(1))` (util/repair_strategy.py:15) raises `ValueError` for a
  longer header number. The call at util/repair_strategy.py:93 is outside the `try`, so the
  exception would leave `generate_and_repair`. `ErrorLocator.DecimalValue` returns a key
  instead, and the model does not capture that failure.
- Python's recursion limit is not modelled. A very large `max_attempts` would make the
  recursive original raise `RecursionError`, where the loop model simply runs on.
- Exceptions raised by `generate` or `compile` other than the construction failure are not
  modelled. `_generate` catches its own, and the construction failure is `Build.Raised`.
