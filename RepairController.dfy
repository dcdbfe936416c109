/** The Repair Controller: the `_recursive_repair` loop of `generate_and_repair` in
    util/repair_strategy.py. Each attempt asks the generator to continue the retained
    snippet, compiles `snippet + new code`, records the result, and either stops or rolls
    the source back to whole lines ending before the first error line, backing off by a
    factor of four while that first error line stays the same.

    The generator (a sampled vision-language model) and the document compiler are oracles:
    `generate(k, snippet)` is the text the `k`-th call returns, and `compile(code)` is what
    constructing a document from `code` yields. */
module RepairController {
  import opened Wrappers
  import opened Arith
  import opened PyText
  import opened ErrorLocator

  /** The factor the offset grows by while the first error line repeats. */
  const BackoffFactor: int := 4
  /** The cap on the offset. */
  const MaxOffset: int := 4096

  /** What constructing a document from some code yields: a compiled document, or the
      message of the exception its constructor raised. */
  datatype Build =
    | Built(hasContent: bool, compiledWithErrors: bool, log: string)
    | Raised(error: string)

  /** One entry of `all_attempts`: a compiled document, or the stand-in record made when
      construction raised. */
  datatype Attempt =
    | Document(code: string, hasContent: bool, compiledWithErrors: bool, log: string)
    | ConstructionFailed(code: string, error: string)
  {
    /** The record's `has_content`. */
    predicate HasContent() {
      Document? && hasContent
    }

    /** The record's `compiled_with_errors`. */
    predicate CompiledWithErrors() {
      ConstructionFailed? || compiledWithErrors
    }

    /** The record's `log`. */
    function Log(): string {
      if Document? then log else "TikzDocument error: " + error
    }
  }

  /** The arguments of one `_recursive_repair` call. */
  datatype RepairState = RepairState(attemptsLeft: int, snippet: string, offset: int,
                                     prevFirstError: Option<nat>)

  /** The outermost call `_recursive_repair(max_attempts)`. */
  function Initial(maxAttempts: int): RepairState {
    RepairState(maxAttempts, "", 1, None)
  }

  /** How one call ends: it returns the record it appended, or it recurses on a new state. */
  datatype Outcome = Stop(record: Attempt) | Retry(record: Attempt, next: RepairState)

  /** `snippet + new_code if snippet else new_code`: the condition makes no difference. */
  function FullCode(snippet: string, newCode: string): (code: string)
    ensures code == snippet + newCode
  {
    if snippet != [] then snippet + newCode else newCode
  }

  /** The new offset: back to 1 when the first error line moved (or on the first failure),
      otherwise four times the old one, capped at 4096. Within [1, 4096] it stays there and,
      while the line repeats, it never shrinks and only stops growing at the cap. */
  function NextOffset(offset: int, prev: Option<nat>, first: nat): (r: int)
    ensures prev != Some(first) ==> r == 1
    ensures 1 <= offset <= MaxOffset ==> 1 <= r <= MaxOffset
    ensures prev == Some(first) && 1 <= offset ==> offset < r || r == MaxOffset
  {
    if prev != Some(first) then 1 else Min(BackoffFactor * offset, MaxOffset)
  }

  /** The offset after the first error line has been `first` for `n + 1` failures in a
      row, the first of which followed a different line (or no failure) `prev`. */
  function RepeatedOffset(offset: int, prev: Option<nat>, first: nat, n: nat): int {
    if n == 0 then NextOffset(offset, prev, first)
    else NextOffset(RepeatedOffset(offset, prev, first, n - 1), Some(first), first)
  }

  /** While the first error line stays the same, the offsets run 1, 4, 16, ..., 4096 and
      stay at 4096. */
  lemma {:induction false} BackoffSequence(offset: int, prev: Option<nat>, first: nat, n: nat)
    requires prev != Some(first)
    ensures RepeatedOffset(offset, prev, first, n) == Min(Pow(BackoffFactor, n), MaxOffset)
  {
    if n > 0 {
      BackoffSequence(offset, prev, first, n - 1);
    }
  }

  /** `max(first_error - offset, 0)`: with a positive offset, fewer lines than the 1-based
      error line, so that line and everything after it are dropped; none at all once the
      offset reaches the error line. */
  function KeepCount(first: nat, offset: int): (n: nat)
    ensures 1 <= offset ==> n <= Max(first - 1, 0)
    ensures n == 0 <==> first <= offset
  {
    Max(first - offset, 0)
  }

  /** The least element of `keys` from `i` on, searching upwards; `ub` is one that exists. */
  ghost function LeastFrom(keys: set<nat>, i: nat, ub: nat): nat
    requires ub in keys && i <= ub
    decreases ub - i
  {
    if i in keys then i else LeastFrom(keys, i + 1, ub)
  }

  /** `min(errors.keys())`. */
  ghost function MinKey(keys: set<nat>): nat
    requires keys != {}
  {
    var x :| x in keys;
    LeastFrom(keys, 0, x)
  }

  lemma {:induction false} LeastFromIsLeast(keys: set<nat>, i: nat, ub: nat)
    requires ub in keys && i <= ub
    ensures var m := LeastFrom(keys, i, ub);
            i <= m <= ub && m in keys && forall k :: i <= k < m ==> k !in keys
    decreases ub - i
  {
    if i !in keys {
      LeastFromIsLeast(keys, i + 1, ub);
    }
  }

  /** The minimum is a key, and no key is smaller. */
  lemma MinKeyIsLeast(keys: set<nat>)
    requires keys != {}
    ensures MinKey(keys) in keys && forall k :: k in keys ==> MinKey(keys) <= k
  {
    var x :| x in keys && MinKey(keys) == LeastFrom(keys, 0, x);
    LeastFromIsLeast(keys, 0, x);
  }

  /** One call of `_recursive_repair` on state `s`, the `k`-th generator call of the session. */
  ghost function Step(s: RepairState, k: nat, generate: (nat, string) -> string,
                      compile: string -> Build): (o: Outcome)
    ensures o.record.code == s.snippet + generate(k, s.snippet)
    ensures o.Retry? ==> s.attemptsLeft > 0 && o.next.attemptsLeft == s.attemptsLeft - 1
  {
    var code := FullCode(s.snippet, generate(k, s.snippet));
    match compile(code)
    case Raised(e) => Stop(ConstructionFailed(code, e))
    case Built(hasContent, withErrors, log) =>
      var doc := Document(code, hasContent, withErrors, log);
      var errors := Errors(log, RootFile);
      if hasContent || s.attemptsLeft <= 0 || errors == map[] then Stop(doc)
      else
        var first := MinKey(errors.Keys);
        var offset := NextOffset(s.offset, s.prevFirstError, first);
        Retry(doc, RepairState(s.attemptsLeft - 1, KeepLines(code, KeepCount(first, offset)),
                               offset, Some(first)))
  }


  /** What is left of the attempt budget, as a termination measure. */
  function Budget(s: RepairState): nat {
    if s.attemptsLeft > 0 then s.attemptsLeft else 0
  }

  // ---------------------------------------------------------------------------------------
  // The recursion, for any single-call function `step`

  /** A call recurses only with budget left, and on exactly one attempt less. */
  ghost predicate Spends(step: (RepairState, nat) -> Outcome) {
    forall s: RepairState, k: nat :: step(s, k).Retry? ==>
      0 < s.attemptsLeft && step(s, k).next.attemptsLeft == s.attemptsLeft - 1
  }

  /** The records appended by the calls from state `s` on, the first of them being the
      `k`-th generator call; the last record is the one the outermost call returns. */
  ghost function Run(step: (RepairState, nat) -> Outcome, s: RepairState, k: nat): seq<Attempt>
    requires Spends(step)
    decreases Budget(s)
  {
    match step(s, k)
    case Stop(r) => [r]
    case Retry(r, next) => [r] + Run(step, next, k + 1)
  }

  /** The states those calls start in, one per record. */
  ghost function RunStates(step: (RepairState, nat) -> Outcome, s: RepairState, k: nat): seq<RepairState>
    requires Spends(step)
    decreases Budget(s)
  {
    match step(s, k)
    case Stop(_) => [s]
    case Retry(_, next) => [s] + RunStates(step, next, k + 1)
  }

  /** One call of `_recursive_repair`, as a function of the state and the call index. */
  ghost function StepOf(generate: (nat, string) -> string, compile: string -> Build): (step: (RepairState, nat) -> Outcome)
    ensures Spends(step)
  {
    (s: RepairState, k: nat) => Step(s, k, generate, compile)
  }

  /** The records a session of `_recursive_repair` from state `s` appends to `all_attempts`. */
  ghost function Session(s: RepairState, k: nat, generate: (nat, string) -> string,
                         compile: string -> Build): seq<Attempt>
  {
    Run(StepOf(generate, compile), s, k)
  }

  /** The states the calls of that session start in. */
  ghost function States(s: RepairState, k: nat, generate: (nat, string) -> string,
                        compile: string -> Build): seq<RepairState>
  {
    RunStates(StepOf(generate, compile), s, k)
  }

  /** `min(errors.keys())`, scanning the keys. */
  method FirstError(errors: map<nat, string>) returns (first: nat)
    requires errors != map[]
    ensures first == MinKey(errors.Keys)
  {
    var rest := errors.Keys;
    first :| first in rest;
    rest := rest - {first};
    while rest != {}
      invariant first in errors && rest <= errors.Keys
      invariant forall k :: k in errors && k !in rest ==> first <= k
      decreases rest
    {
      var k :| k in rest;
      if k < first {
        first := k;
      }
      rest := rest - {k};
    }
    MinKeyIsLeast(errors.Keys);
  }

  /** One call of `_recursive_repair`: generate, compile, record, then stop or compute the
      arguments of the next call. */
  method RepairCall(s: RepairState, k: nat, generate: (nat, string) -> string,
                    compile: string -> Build)
    returns (o: Outcome)
    ensures o == Step(s, k, generate, compile)
  {
    var newCode := generate(k, s.snippet);
    var fullCode := FullCode(s.snippet, newCode);
    match compile(fullCode)
    case Raised(e) =>
      return Stop(ConstructionFailed(fullCode, e));
    case Built(hasContent, withErrors, log) =>
      var doc := Document(fullCode, hasContent, withErrors, log);
      if hasContent || s.attemptsLeft <= 0 {
        return Stop(doc);
      }
      var errors := ParseLatexErrors(log, RootFile);
      if errors == map[] {
        return Stop(doc);
      }
      var firstError := FirstError(errors);
      var offset := NextOffset(s.offset, s.prevFirstError, firstError);
      var snippet := KeepLines(fullCode, KeepCount(firstError, offset));
      return Retry(doc, RepairState(s.attemptsLeft - 1, snippet, offset, Some(firstError)));
  }

  /** `generate_and_repair`: runs `_recursive_repair(max_attempts)` as a loop over its four
      arguments, appending each call's record, and returns the final record together with
      every record appended. */
  method GenerateAndRepair(maxAttempts: int, generate: (nat, string) -> string,
                           compile: string -> Build)
    returns (finalDoc: Attempt, allAttempts: seq<Attempt>)
    ensures allAttempts == Session(Initial(maxAttempts), 0, generate, compile)
    ensures finalDoc == allAttempts[|allAttempts| - 1]
    ensures 1 <= |allAttempts| <= Max(maxAttempts, 0) + 1
  {
    var s := Initial(maxAttempts);
    allAttempts := [];
    ghost var whole := Session(s, 0, generate, compile);
    while true
      invariant allAttempts + Session(s, |allAttempts|, generate, compile) == whole
      decreases Budget(s)
    {
      var k := |allAttempts|;
      var o := RepairCall(s, k, generate, compile);
      SessionUnfold(s, k, generate, compile);
      match o
      case Stop(r) =>
        AppendRecord(allAttempts, r, [], whole);
        allAttempts := allAttempts + [r];
        SessionLength(Initial(maxAttempts), 0, generate, compile);
        return r, allAttempts;
      case Retry(r, next) =>
        AppendRecord(allAttempts, r, Session(next, k + 1, generate, compile), whole);
        allAttempts := allAttempts + [r];
        s := next;
    }
  }

  /** Moving a session's first record onto the records already appended. */
  lemma AppendRecord(done: seq<Attempt>, r: Attempt, rest: seq<Attempt>, whole: seq<Attempt>)
    requires done + ([r] + rest) == whole
    ensures (done + [r]) + rest == whole
  {
    assert done + ([r] + rest) == (done + [r]) + rest;
  }

  /** A session is its first record followed, on a retry, by the session from the new state. */
  lemma SessionUnfold(s: RepairState, k: nat, generate: (nat, string) -> string,
                      compile: string -> Build)
    ensures var o := Step(s, k, generate, compile);
            Session(s, k, generate, compile)
              == [o.record] + (if o.Retry? then Session(o.next, k + 1, generate, compile) else [])
  {
  }

  // ---------------------------------------------------------------------------------------
  // One call

  /** A call stops exactly when the document could not be constructed, has content, the
      budget is spent, or its log locates no error. */
  lemma StepStopsWhen(s: RepairState, k: nat, generate: (nat, string) -> string,
                      compile: string -> Build)
    ensures var b := compile(s.snippet + generate(k, s.snippet));
            Step(s, k, generate, compile).Stop?
            <==> b.Raised? || b.hasContent || s.attemptsLeft <= 0 || Errors(b.log, RootFile) == map[]
  {
  }

  /** When construction raises, the call returns at once, whatever budget is left, with a
      record that has no content, counts as compiled with errors, keeps the code, and logs
      the exception. */
  lemma ConstructionFailureStops(s: RepairState, k: nat, generate: (nat, string) -> string,
                                 compile: string -> Build)
    requires compile(s.snippet + generate(k, s.snippet)).Raised?
    ensures var code := s.snippet + generate(k, s.snippet);
            var r := Step(s, k, generate, compile);
            r.Stop? && r.record == ConstructionFailed(code, compile(code).error)
            && !r.record.HasContent() && r.record.CompiledWithErrors()
            && r.record.Log() == "TikzDocument error: " + compile(code).error
  {
  }

  /** A call that recurses recorded a compiled document without content whose log locates
      an error, and it had budget left. */
  lemma RetryFollowsLocatedError(s: RepairState, k: nat, generate: (nat, string) -> string,
                                 compile: string -> Build)
    requires Step(s, k, generate, compile).Retry?
    ensures var r := Step(s, k, generate, compile).record;
            r.Document? && !r.HasContent() && s.attemptsLeft > 0 && Errors(r.Log(), RootFile) != map[]
  {
  }

  /** On a retry the first error is the least line of the log's error map; the offset is 1
      if it differs from the previous first error and otherwise grows by four up to 4096;
      and the new snippet is the first `max(first - offset, 0)` whole lines of the code. */
  lemma RetryRollsBack(s: RepairState, k: nat, generate: (nat, string) -> string,
                       compile: string -> Build)
    requires Step(s, k, generate, compile).Retry?
    ensures var o := Step(s, k, generate, compile);
            var errors := Errors(o.record.Log(), RootFile);
            errors != map[]
            && o.next.prevFirstError.Some?
            && var first := o.next.prevFirstError.value;
            first in errors && (forall line :: line in errors ==> first <= line)
            && o.next.offset
               == (if s.prevFirstError == Some(first) then Min(BackoffFactor * s.offset, MaxOffset)
                   else 1)
            && o.next.snippet == KeepLines(o.record.code, KeepCount(first, o.next.offset))
  {
    var o := Step(s, k, generate, compile);
    MinKeyIsLeast(Errors(o.record.Log(), RootFile).Keys);
  }

  /** The new snippet is a prefix of the code just compiled, made of its whole lines, and
      holds fewer lines than the first error line: the failing line is always dropped. */
  lemma RetainedSnippet(s: RepairState, k: nat, generate: (nat, string) -> string,
                        compile: string -> Build)
    requires Step(s, k, generate, compile).Retry?
    ensures var o := Step(s, k, generate, compile);
            var lines := SplitLines(o.record.code);
            var kept := SplitLines(o.next.snippet);
            var first := o.next.prevFirstError.value;
            o.next.snippet <= o.record.code
            && |kept| <= |lines| && kept == lines[..|kept|]
            && |kept| <= Max(first - o.next.offset, 0)
            && (1 <= s.offset ==> |kept| <= Max(first - 1, 0))
  {
    var o := Step(s, k, generate, compile);
    var first := o.next.prevFirstError.value;
    var n := KeepCount(first, o.next.offset);
    assert o.next.snippet == KeepLines(o.record.code, n);
    KeepLinesSpec(o.record.code, n);
  }

  // ---------------------------------------------------------------------------------------
  // Any run

  /** A run records at least one and at most `attempts_left + 1` attempts, one per state. */
  lemma {:induction false} RunLength(step: (RepairState, nat) -> Outcome, s: RepairState, k: nat)
    requires Spends(step)
    ensures 1 <= |Run(step, s, k)| <= Budget(s) + 1
    ensures |RunStates(step, s, k)| == |Run(step, s, k)|
    decreases Budget(s)
  {
    if step(s, k).Retry? {
      RunLength(step, step(s, k).next, k + 1);
    }
  }

  /** The `j`-th record is what the `j`-th call made from the `j`-th state, with `j` fewer
      attempts left; every call but the last recursed, into the next state, and the last
      one stopped. */
  lemma {:induction false} RunAt(step: (RepairState, nat) -> Outcome, s: RepairState, k: nat, j: nat)
    requires Spends(step)
    requires j < |Run(step, s, k)|
    ensures |RunStates(step, s, k)| == |Run(step, s, k)|
    ensures var x := RunStates(step, s, k)[j];
            Run(step, s, k)[j] == step(x, k + j).record
            && x.attemptsLeft == s.attemptsLeft - j
            && (j + 1 < |Run(step, s, k)| <==> step(x, k + j).Retry?)
            && (j + 1 < |Run(step, s, k)| ==> RunStates(step, s, k)[j + 1] == step(x, k + j).next)
    decreases j
  {
    RunLength(step, s, k);
    var o := step(s, k);
    if j > 0 {
      var run := Run(step, o.next, k + 1);
      var states := RunStates(step, o.next, k + 1);
      RunAt(step, o.next, k + 1, j - 1);
      assert Run(step, s, k)[j] == run[j - 1];
      assert RunStates(step, s, k)[j] == states[j - 1];
      if j + 1 < |Run(step, s, k)| {
        assert RunStates(step, s, k)[j + 1] == states[j];
      }
      assert k + 1 + (j - 1) == k + j;
    }
  }

  /** Every call compiles the state's snippet followed by what the generator returned. */
  ghost predicate CompilesSnippet(step: (RepairState, nat) -> Outcome, generate: (nat, string) -> string) {
    forall s: RepairState, k: nat :: step(s, k).record.code == s.snippet + generate(k, s.snippet)
  }

  lemma RunCompilesSnippet(step: (RepairState, nat) -> Outcome, generate: (nat, string) -> string,
                           s: RepairState, k: nat, j: nat)
    requires Spends(step) && CompilesSnippet(step, generate)
    requires j < |Run(step, s, k)|
    ensures j < |RunStates(step, s, k)|
    ensures var snippet := RunStates(step, s, k)[j].snippet;
            Run(step, s, k)[j].code == snippet + generate(k + j, snippet)
  {
    RunAt(step, s, k, j);
  }

  /** A call recurses only after a compiled document without content whose log locates
      an error. */
  ghost predicate RetriesOnLocatedError(step: (RepairState, nat) -> Outcome) {
    forall s: RepairState, k: nat :: step(s, k).Retry? ==>
      var r := step(s, k).record;
      r.Document? && !r.HasContent() && Errors(r.Log(), RootFile) != map[]
  }

  lemma RunRetriesOnLocatedErrors(step: (RepairState, nat) -> Outcome, s: RepairState, k: nat, j: nat)
    requires Spends(step) && RetriesOnLocatedError(step)
    requires j + 1 < |Run(step, s, k)|
    ensures j + 1 < |RunStates(step, s, k)|
    ensures var r := Run(step, s, k)[j];
            r.Document? && !r.HasContent() && Errors(r.Log(), RootFile) != map[]
            && RunStates(step, s, k)[j].attemptsLeft == s.attemptsLeft - j > 0
  {
    RunAt(step, s, k, j);
  }

  /** A call that starts with an offset in [1, 4096] recurses with one in [1, 4096]. */
  ghost predicate KeepsOffsetInRange(step: (RepairState, nat) -> Outcome) {
    forall s: RepairState, k: nat :: step(s, k).Retry? && 1 <= s.offset <= MaxOffset ==>
      1 <= step(s, k).next.offset <= MaxOffset
  }

  lemma {:induction false} RunOffsetsInRange(step: (RepairState, nat) -> Outcome, s: RepairState, k: nat, j: nat)
    requires Spends(step) && KeepsOffsetInRange(step)
    requires 1 <= s.offset <= MaxOffset
    requires j < |RunStates(step, s, k)|
    ensures 1 <= RunStates(step, s, k)[j].offset <= MaxOffset
    decreases j
  {
    if j > 0 {
      var next := step(s, k).next;
      RunOffsetsInRange(step, next, k + 1, j - 1);
      assert RunStates(step, s, k)[j] == RunStates(step, next, k + 1)[j - 1];
    }
  }

  /** The state `next` retains whole leading lines of `code`, fewer than the first error
      line it remembers: the snippet is a prefix of `code`, splitting it gives the first
      lines of `code`, and the line that failed is not among them. */
  ghost predicate RetainedLines(next: RepairState, code: string) {
    var kept := SplitLines(next.snippet);
    next.snippet <= code
    && |kept| <= |SplitLines(code)| && kept == SplitLines(code)[..|kept|]
    && next.prevFirstError.Some? && |kept| <= Max(next.prevFirstError.value - 1, 0)
  }

  /** A call that starts with a positive offset recurses on whole leading lines of the
      code it compiled, fewer than the first error line, and remembers that line. */
  ghost predicate RollsBackToLines(step: (RepairState, nat) -> Outcome) {
    forall s: RepairState, k: nat :: step(s, k).Retry? && 1 <= s.offset ==>
      RetainedLines(step(s, k).next, step(s, k).record.code)
  }

  lemma RunRollsBackToLines(step: (RepairState, nat) -> Outcome, s: RepairState, k: nat, j: nat)
    requires Spends(step) && KeepsOffsetInRange(step) && RollsBackToLines(step)
    requires 1 <= s.offset <= MaxOffset
    requires j + 1 < |Run(step, s, k)|
    ensures j + 1 < |RunStates(step, s, k)|
    ensures RetainedLines(RunStates(step, s, k)[j + 1], Run(step, s, k)[j].code)
  {
    RunAt(step, s, k, j);
    RunOffsetsInRange(step, s, k, j);
  }

  // ---------------------------------------------------------------------------------------
  // A whole session

  lemma StepCompilesSnippet(generate: (nat, string) -> string, compile: string -> Build)
    ensures CompilesSnippet(StepOf(generate, compile), generate)
  {
  }

  lemma StepRetriesOnLocatedError(generate: (nat, string) -> string, compile: string -> Build)
    ensures RetriesOnLocatedError(StepOf(generate, compile))
  {
    forall s: RepairState, k: nat | Step(s, k, generate, compile).Retry? {
      RetryFollowsLocatedError(s, k, generate, compile);
    }
  }

  lemma StepKeepsOffsetInRange(generate: (nat, string) -> string, compile: string -> Build)
    ensures KeepsOffsetInRange(StepOf(generate, compile))
  {
    forall s: RepairState, k: nat | Step(s, k, generate, compile).Retry? {
      RetryRollsBack(s, k, generate, compile);
    }
  }

  lemma StepRollsBackToLines(generate: (nat, string) -> string, compile: string -> Build)
    ensures RollsBackToLines(StepOf(generate, compile))
  {
    forall s: RepairState, k: nat | Step(s, k, generate, compile).Retry? && 1 <= s.offset {
      RetainedSnippet(s, k, generate, compile);
    }
  }

  /** A session from `s` records at least one and at most `attempts_left + 1` attempts (one
      when the budget is already spent). */
  lemma SessionLength(s: RepairState, k: nat, generate: (nat, string) -> string,
                      compile: string -> Build)
    ensures 1 <= |Session(s, k, generate, compile)| <= Budget(s) + 1
    ensures |States(s, k, generate, compile)| == |Session(s, k, generate, compile)|
  {
    RunLength(StepOf(generate, compile), s, k);
  }

  /** Every record of a session holds exactly the code its call compiled: the state's
      snippet followed by what the generator returned for it. */
  lemma SessionCompilesSnippet(s: RepairState, k: nat, generate: (nat, string) -> string,
                               compile: string -> Build, j: nat)
    requires j < |Session(s, k, generate, compile)|
    ensures j < |States(s, k, generate, compile)|
    ensures var snippet := States(s, k, generate, compile)[j].snippet;
            Session(s, k, generate, compile)[j].code == snippet + generate(k + j, snippet)
  {
    StepCompilesSnippet(generate, compile);
    RunCompilesSnippet(StepOf(generate, compile), generate, s, k, j);
  }

  /** Every record before the last is a compiled document without content whose log
      locates an error, made with budget left; the budget drops by one per record. */
  lemma SessionRetriesOnLocatedErrors(s: RepairState, k: nat, generate: (nat, string) -> string,
                                      compile: string -> Build, j: nat)
    requires j + 1 < |Session(s, k, generate, compile)|
    ensures j + 1 < |States(s, k, generate, compile)|
    ensures var r := Session(s, k, generate, compile)[j];
            r.Document? && !r.HasContent() && Errors(r.Log(), RootFile) != map[]
            && States(s, k, generate, compile)[j].attemptsLeft == s.attemptsLeft - j > 0
  {
    StepRetriesOnLocatedError(generate, compile);
    RunRetriesOnLocatedErrors(StepOf(generate, compile), s, k, j);
  }

  /** Every state of a session that starts with an offset in [1, 4096] keeps it there. */
  lemma SessionOffsetsInRange(s: RepairState, k: nat, generate: (nat, string) -> string,
                              compile: string -> Build, j: nat)
    requires 1 <= s.offset <= MaxOffset
    requires j < |States(s, k, generate, compile)|
    ensures 1 <= States(s, k, generate, compile)[j].offset <= MaxOffset
  {
    StepKeepsOffsetInRange(generate, compile);
    RunOffsetsInRange(StepOf(generate, compile), s, k, j);
  }

  /** From one record to the next, the snippet is whole leading lines of the code just
      compiled, fewer than the first error line that record's log located. */
  lemma SessionSnippetsAreRetainedLines(s: RepairState, k: nat,
                                        generate: (nat, string) -> string,
                                        compile: string -> Build, j: nat)
    requires 1 <= s.offset <= MaxOffset
    requires j + 1 < |Session(s, k, generate, compile)|
    ensures j + 1 < |States(s, k, generate, compile)|
    ensures RetainedLines(States(s, k, generate, compile)[j + 1],
                          Session(s, k, generate, compile)[j].code)
  {
    StepKeepsOffsetInRange(generate, compile);
    StepRollsBackToLines(generate, compile);
    RunRollsBackToLines(StepOf(generate, compile), s, k, j);
  }
}
