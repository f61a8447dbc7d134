/**
 * The incremental validation task (`ValidateWffFilesTask.validate`): for each
 * reported file change that is not a removal, run the validator jar once with
 * the arguments [version, "--stop-on-fail", absolute path] and overwrite the
 * task's output file with the result's text. A failing validator run makes
 * the task throw, so the rest of the changes are not processed.
 *
 * The validator is an oracle from an invocation to its outcome. The change set
 * (Gradle's `getFileChanges`) and the format version (`getWffVersion`) are inputs.
 */
module Validation {
  import opened Options
  import opened Seqs
  import opened Decimal

  datatype ChangeType = Added | Modified | Removed

  datatype FileChange = FileChange(absolutePath: string, changeType: ChangeType)

  /** One `javaexec` call: the classpath and the program arguments. */
  datatype Invocation = JavaExec(classpath: string, args: seq<string>)

  /** What a validator run gives back: the text written to the output file, or a non-zero exit. */
  datatype ExecResult = Pass(text: string) | Fail

  const StopOnFail := "--stop-on-fail"

  /** Removed files are skipped; added and modified ones are validated. */
  predicate IsProcessed(c: FileChange) { c.changeType != Removed }

  /** The changes the task validates, in the order Gradle reports them. */
  function Processed(changes: seq<FileChange>): seq<FileChange>
  {
    Filter(changes, IsProcessed)
  }

  /** The one invocation made for a change. */
  function InvocationFor(jar: string, version: int, c: FileChange): Invocation
  {
    JavaExec(jar, [IntToDecimal(version), StopOnFail, c.absolutePath])
  }

  /** The invocations for a sequence of changes, one each, in order. */
  function InvocationsFor(jar: string, version: int, cs: seq<FileChange>): (r: seq<Invocation>)
    ensures |r| == |cs|
  {
    seq(|cs|, k requires 0 <= k < |cs| => InvocationFor(jar, version, cs[k]))
  }

  /** What the task has done so far: the output file (None: absent), the invocations made,
      and the change whose validation failed, once one has. */
  datatype RunState = RunState(output: Option<string>, log: seq<Invocation>, failedAt: Option<FileChange>)

  /** Handling one change: nothing once the task has failed or for a removal; otherwise one
      invocation, then either a failure or an overwrite of the output file. */
  function Step(jar: string, version: int, exec: Invocation -> ExecResult, st: RunState, c: FileChange): RunState
  {
    if st.failedAt.Some? || !IsProcessed(c) then st
    else
      var call := InvocationFor(jar, version, c);
      match exec(call)
      case Fail => st.(log := st.log + [call], failedAt := Some(c))
      case Pass(text) => st.(log := st.log + [call], output := Some(text))
  }

  /** The task's effect on `st` of handling `changes` one after the other. */
  function Run(jar: string, version: int, exec: Invocation -> ExecResult, st: RunState, changes: seq<FileChange>): RunState
  {
    if |changes| == 0 then st
    else Step(jar, version, exec, Run(jar, version, exec, st, changes[..|changes| - 1]), changes[|changes| - 1])
  }

  /** A reference definition of where the run stops: the position, among the processed
      changes, of the first one the validator rejects; `|cs|` when it accepts them all. */
  function FirstRejected(jar: string, version: int, exec: Invocation -> ExecResult, cs: seq<FileChange>): (k: nat)
    ensures k <= |cs|
    ensures k < |cs| ==> exec(InvocationFor(jar, version, cs[k])).Fail?
    ensures forall j :: 0 <= j < k ==> exec(InvocationFor(jar, version, cs[j])).Pass?
  {
    if |cs| == 0 then 0
    else
      var k := FirstRejected(jar, version, exec, cs[..|cs| - 1]);
      if k < |cs| - 1 then k
      else if exec(InvocationFor(jar, version, cs[|cs| - 1])).Fail? then |cs| - 1
      else |cs|
  }

  /** How many invocations the run makes: up to and including the first rejected change. */
  function CallCount(jar: string, version: int, exec: Invocation -> ExecResult, cs: seq<FileChange>): (n: nat)
    ensures n <= |cs|
  {
    var k := FirstRejected(jar, version, exec, cs);
    if k < |cs| then k + 1 else |cs|
  }

  lemma InvocationsForSnoc(jar: string, version: int, cs: seq<FileChange>, c: FileChange)
    ensures InvocationsFor(jar, version, cs + [c]) == InvocationsFor(jar, version, cs) + [InvocationFor(jar, version, c)]
  {
  }

  /** The state a run starting from `st` reaches, in terms of the processed changes `cs` alone:
      it invokes the validator for them in order up to and including the first rejected one,
      records that one as the failure, and leaves in the output file the text of the last
      accepted one, or the file as it was when none was accepted. */
  function Expected(jar: string, version: int, exec: Invocation -> ExecResult, st: RunState, cs: seq<FileChange>): RunState
  {
    RunState(OutputAfter(jar, version, exec, st.output, cs),
             st.log + InvocationsFor(jar, version, cs[..CallCount(jar, version, exec, cs)]),
             FailureAfter(jar, version, exec, cs))
  }

  /** The output file after the processed changes `cs`: the last accepted change's text. */
  function OutputAfter(jar: string, version: int, exec: Invocation -> ExecResult, output: Option<string>, cs: seq<FileChange>): Option<string>
  {
    var k := FirstRejected(jar, version, exec, cs);
    if k == 0 then output else Some(exec(InvocationFor(jar, version, cs[k - 1])).text)
  }

  /** The failure after the processed changes `cs`: the first rejected change, if any. */
  function FailureAfter(jar: string, version: int, exec: Invocation -> ExecResult, cs: seq<FileChange>): Option<FileChange>
  {
    var k := FirstRejected(jar, version, exec, cs);
    if k < |cs| then Some(cs[k]) else None
  }

  /** One more processed change moves the expected state by one `Step`. */
  lemma ExpectedSnoc(jar: string, version: int, exec: Invocation -> ExecResult, st: RunState, cs: seq<FileChange>, c: FileChange)
    requires st.failedAt.None? && IsProcessed(c)
    ensures Expected(jar, version, exec, st, cs + [c]) == Step(jar, version, exec, Expected(jar, version, exec, st, cs), c)
  {
    if FirstRejected(jar, version, exec, cs) == |cs| {
      ExpectedSnocAllAccepted(jar, version, exec, st, cs, c);
    } else {
      ExpectedSnocAfterRejection(jar, version, exec, st, cs, c);
    }
  }

  /** Where the run stops, one more change later, when every earlier change was accepted. */
  lemma FirstRejectedSnocAccepted(jar: string, version: int, exec: Invocation -> ExecResult, cs: seq<FileChange>, c: FileChange)
    requires FirstRejected(jar, version, exec, cs) == |cs|
    ensures FirstRejected(jar, version, exec, cs + [c]) ==
      if exec(InvocationFor(jar, version, c)).Fail? then |cs| else |cs| + 1
    ensures CallCount(jar, version, exec, cs + [c]) == |cs| + 1
  {
    var cs' := cs + [c];
    assert cs'[..|cs'| - 1] == cs;
  }

  lemma ExpectedSnocAllAccepted(jar: string, version: int, exec: Invocation -> ExecResult, st: RunState, cs: seq<FileChange>, c: FileChange)
    requires st.failedAt.None? && IsProcessed(c)
    requires FirstRejected(jar, version, exec, cs) == |cs|
    ensures Expected(jar, version, exec, st, cs + [c]) == Step(jar, version, exec, Expected(jar, version, exec, st, cs), c)
  {
    var call := InvocationFor(jar, version, c);
    LogSnocAccepted(jar, version, exec, cs, c);
    OutputSnocAccepted(jar, version, exec, st.output, cs, c);
    FailureSnocAccepted(jar, version, exec, cs, c);
    var before := Expected(jar, version, exec, st, cs);
    assert before.failedAt == None;
  }

  lemma LogSnocAccepted(jar: string, version: int, exec: Invocation -> ExecResult, cs: seq<FileChange>, c: FileChange)
    requires FirstRejected(jar, version, exec, cs) == |cs|
    ensures InvocationsFor(jar, version, (cs + [c])[..CallCount(jar, version, exec, cs + [c])])
         == InvocationsFor(jar, version, cs[..CallCount(jar, version, exec, cs)]) + [InvocationFor(jar, version, c)]
  {
    var cs' := cs + [c];
    FirstRejectedSnocAccepted(jar, version, exec, cs, c);
    assert cs[..|cs|] == cs && cs'[..|cs'|] == cs';
    InvocationsForSnoc(jar, version, cs, c);
  }

  lemma OutputSnocAccepted(jar: string, version: int, exec: Invocation -> ExecResult, output: Option<string>, cs: seq<FileChange>, c: FileChange)
    requires FirstRejected(jar, version, exec, cs) == |cs|
    ensures OutputAfter(jar, version, exec, output, cs + [c]) ==
      match exec(InvocationFor(jar, version, c))
      case Fail => OutputAfter(jar, version, exec, output, cs)
      case Pass(text) => Some(text)
  {
    var cs' := cs + [c];
    FirstRejectedSnocAccepted(jar, version, exec, cs, c);
    assert cs'[|cs|] == c;
    assert |cs| > 0 ==> cs'[|cs| - 1] == cs[|cs| - 1];
  }

  lemma FailureSnocAccepted(jar: string, version: int, exec: Invocation -> ExecResult, cs: seq<FileChange>, c: FileChange)
    requires FirstRejected(jar, version, exec, cs) == |cs|
    ensures FailureAfter(jar, version, exec, cs) == None
    ensures FailureAfter(jar, version, exec, cs + [c]) ==
      if exec(InvocationFor(jar, version, c)).Fail? then Some(c) else None
  {
    var cs' := cs + [c];
    FirstRejectedSnocAccepted(jar, version, exec, cs, c);
    assert cs'[|cs|] == c;
  }

  lemma ExpectedSnocAfterRejection(jar: string, version: int, exec: Invocation -> ExecResult, st: RunState, cs: seq<FileChange>, c: FileChange)
    requires st.failedAt.None? && IsProcessed(c)
    requires FirstRejected(jar, version, exec, cs) < |cs|
    ensures Expected(jar, version, exec, st, cs + [c]) == Expected(jar, version, exec, st, cs)
    ensures Expected(jar, version, exec, st, cs).failedAt.Some?
  {
    var cs' := cs + [c];
    assert cs'[..|cs'| - 1] == cs;
    var k := FirstRejected(jar, version, exec, cs);
    assert FirstRejected(jar, version, exec, cs') == k;
    assert CallCount(jar, version, exec, cs') == k + 1 == CallCount(jar, version, exec, cs);
    assert cs'[..k + 1] == cs[..k + 1];
    assert k > 0 ==> cs'[k - 1] == cs[k - 1];
    var before, after := Expected(jar, version, exec, st, cs), Expected(jar, version, exec, st, cs');
    assert after.output == before.output;
    assert after.log == before.log;
    assert after.failedAt == Some(cs[k]) == before.failedAt;
  }

  /** What a run does is determined by its processed changes: see `Expected`. */
  lemma {:induction false} RunOutcome(jar: string, version: int, exec: Invocation -> ExecResult, st: RunState, changes: seq<FileChange>)
    requires st.failedAt.None?
    ensures Run(jar, version, exec, st, changes) == Expected(jar, version, exec, st, Processed(changes))
  {
    if |changes| > 0 {
      var init, c := changes[..|changes| - 1], changes[|changes| - 1];
      assert changes == init + [c];
      RunOutcome(jar, version, exec, st, init);
      FilterSnoc(init, c, IsProcessed);
      assert Run(jar, version, exec, st, changes) == Step(jar, version, exec, Run(jar, version, exec, st, init), c);
      if IsProcessed(c) {
        ExpectedSnoc(jar, version, exec, st, Processed(init), c);
      } else {
        assert Processed(changes) == Processed(init);
      }
    }
  }

  /** The run ends with the state it reached when it failed: nothing after a failure counts. */
  lemma {:induction false} RunAfterFailure(jar: string, version: int, exec: Invocation -> ExecResult, st: RunState, changes: seq<FileChange>)
    requires st.failedAt.Some?
    ensures Run(jar, version, exec, st, changes) == st
  {
    if |changes| > 0 {
      RunAfterFailure(jar, version, exec, st, changes[..|changes| - 1]);
    }
  }

  /** Removed changes have no effect at all: the run over the change set is the run over its
      processed changes. */
  lemma RemovedChangesAreInert(jar: string, version: int, exec: Invocation -> ExecResult, st: RunState, changes: seq<FileChange>)
    requires st.failedAt.None?
    ensures Run(jar, version, exec, st, changes) == Run(jar, version, exec, st, Processed(changes))
  {
    RunOutcome(jar, version, exec, st, changes);
    RunOutcome(jar, version, exec, st, Processed(changes));
    FilterAllAccepted(changes, IsProcessed);
    FilterAllAccepting(Processed(changes), IsProcessed);
  }

  /** The processed changes are changes of the set, none of them a removal. */
  lemma ProcessedAreNotRemovals(changes: seq<FileChange>)
    ensures forall k :: 0 <= k < |Processed(changes)| ==>
      Processed(changes)[k] in changes && Processed(changes)[k].changeType != Removed
  {
    forall k | 0 <= k < |Processed(changes)|
      ensures Processed(changes)[k] in changes && Processed(changes)[k].changeType != Removed
    {
      FilterMembership(changes, IsProcessed, Processed(changes)[k]);
    }
  }

  /** Every invocation is for a change that is in the change set and is not a removal, its
      classpath is the validator jar, and its arguments are exactly the version rendered in
      decimal (the same for every invocation, and readable back), "--stop-on-fail" and that
      change's absolute path; the k-th new invocation is for the k-th processed change. */
  lemma EveryInvocationIsForAProcessedChange(jar: string, version: int, exec: Invocation -> ExecResult, st: RunState, changes: seq<FileChange>)
    requires st.failedAt.None?
    ensures var r, cs := Run(jar, version, exec, st, changes), Processed(changes);
      && |st.log| <= |r.log| <= |st.log| + |cs|
      && r.log[..|st.log|] == st.log
      && var calls := r.log[|st.log|..];
      forall k :: 0 <= k < |calls| ==>
        && cs[k] in changes && cs[k].changeType != Removed
        && calls[k].classpath == jar
        && calls[k].args == [IntToDecimal(version), "--stop-on-fail", cs[k].absolutePath]
        && ParseInt(calls[k].args[0]) == Some(version)
  {
    RunOutcome(jar, version, exec, st, changes);
    IntToDecimalRoundTrip(version);
    ProcessedAreNotRemovals(changes);
    var cs := Processed(changes);
    var n := CallCount(jar, version, exec, cs);
    var r := Run(jar, version, exec, st, changes);
    assert r.log == st.log + InvocationsFor(jar, version, cs[..n]);
    assert r.log[..|st.log|] == st.log;
    var calls := r.log[|st.log|..];
    assert calls == InvocationsFor(jar, version, cs[..n]);
    forall k | 0 <= k < |calls|
      ensures calls[k] == InvocationFor(jar, version, cs[k])
    {
      assert cs[..n][k] == cs[k];
    }
  }

  /** When the validator accepts every processed change, each of them is validated exactly
      once, in the order of the change set, the task succeeds, and the output file holds only
      the last one's text (it is overwritten each time); when there is nothing to process,
      nothing is invoked and the output file is left as it was. */
  lemma SuccessfulRun(jar: string, version: int, exec: Invocation -> ExecResult, st: RunState, changes: seq<FileChange>)
    requires st.failedAt.None?
    requires forall j :: 0 <= j < |Processed(changes)| ==>
      exec(InvocationFor(jar, version, Processed(changes)[j])).Pass?
    ensures var cs := Processed(changes);
      var r := Run(jar, version, exec, st, changes);
      && r.failedAt == None
      && r.log == st.log + InvocationsFor(jar, version, cs)
      && r.output == (if |cs| == 0 then st.output
                      else Some(exec(InvocationFor(jar, version, cs[|cs| - 1])).text))
  {
    var cs := Processed(changes);
    RunOutcome(jar, version, exec, st, changes);
    assert cs[..|cs|] == cs;
  }

  /** A change set of removals only leaves the task's state untouched. */
  lemma OnlyRemovalsChangeNothing(jar: string, version: int, exec: Invocation -> ExecResult, st: RunState, changes: seq<FileChange>)
    requires st.failedAt.None?
    requires forall j :: 0 <= j < |changes| ==> changes[j].changeType == Removed
    ensures Run(jar, version, exec, st, changes) == st
  {
    RunOutcome(jar, version, exec, st, changes);
    var cs := Processed(changes);
    if |cs| > 0 {
      FilterMembership(changes, IsProcessed, cs[0]);
    }
  }

  /** A rejected change fails the task: it is the last invocation made, no later change is
      invoked, and its result is not written (the output holds the previous accepted change's
      text, or what it held before the run). */
  lemma FailureStopsTheRun(jar: string, version: int, exec: Invocation -> ExecResult, st: RunState, changes: seq<FileChange>)
    requires st.failedAt.None?
    requires Run(jar, version, exec, st, changes).failedAt.Some?
    ensures var cs := Processed(changes);
      var r := Run(jar, version, exec, st, changes);
      var k := |r.log| - |st.log| - 1;
      && 0 <= k < |cs|
      && r.failedAt == Some(cs[k])
      && exec(InvocationFor(jar, version, cs[k])).Fail?
      && (forall j :: 0 <= j < k ==> exec(InvocationFor(jar, version, cs[j])).Pass?)
      && r.log == st.log + InvocationsFor(jar, version, cs[..k + 1])
      && (k == 0 ==> r.output == st.output)
      && (k > 0 ==> r.output.Some? && exec(InvocationFor(jar, version, cs[k - 1])) == Pass(r.output.value))
  {
    RunOutcome(jar, version, exec, st, changes);
  }

  datatype Outcome = Succeeded | ValidationFailed(change: FileChange)

  /** The task: the validator jar on its classpath, the output file's contents (None: absent)
      and the log of validator invocations made so far. */
  class ValidateWffFilesTask {
    const validatorJarPath: string
    var validatorOutputFile: Option<string>
    var invocations: seq<Invocation>

    constructor (jar: string, existingOutput: Option<string>)
      ensures validatorJarPath == jar && validatorOutputFile == existingOutput && invocations == []
    {
      validatorJarPath := jar;
      validatorOutputFile := existingOutput;
      invocations := [];
    }

    /** The task action, for one change set and the version read from the manifest once. */
    method Validate(version: int, changes: seq<FileChange>, exec: Invocation -> ExecResult)
      returns (outcome: Outcome)
      modifies this
      ensures var r := Run(validatorJarPath, version, exec,
                           RunState(old(validatorOutputFile), old(invocations), None), changes);
        && validatorOutputFile == r.output
        && invocations == r.log
        && outcome == (if r.failedAt.Some? then ValidationFailed(r.failedAt.value) else Succeeded)
    {
      var versionArg := IntToDecimal(version);
      ghost var st0 := RunState(validatorOutputFile, invocations, None);
      var i := 0;
      while i < |changes|
        invariant 0 <= i <= |changes|
        invariant Run(validatorJarPath, version, exec, st0, changes[..i])
                  == RunState(validatorOutputFile, invocations, None)
      {
        assert changes[..i + 1][..i] == changes[..i];
        var change := changes[i];
        if change.changeType != Removed {
          var call := JavaExec(validatorJarPath, [versionArg, StopOnFail, change.absolutePath]);
          var result := exec(call);
          invocations := invocations + [call];
          if result.Fail? {
            outcome := ValidationFailed(change);
            ghost var failed := Run(validatorJarPath, version, exec, st0, changes[..i + 1]);
            assert changes == changes[..i + 1] + changes[i + 1..];
            RunAppend(validatorJarPath, version, exec, st0, changes[..i + 1], changes[i + 1..]);
            RunAfterFailure(validatorJarPath, version, exec, failed, changes[i + 1..]);
            return;
          }
          validatorOutputFile := Some(result.text);
        }
        i := i + 1;
      }
      assert changes[..i] == changes;
      outcome := Succeeded;
    }
  }

  /** Running two change sets one after the other is running their concatenation. */
  lemma {:induction false} RunAppend(jar: string, version: int, exec: Invocation -> ExecResult, st: RunState, a: seq<FileChange>, b: seq<FileChange>)
    ensures Run(jar, version, exec, st, a + b) == Run(jar, version, exec, Run(jar, version, exec, st, a), b)
  {
    if |b| > 0 {
      assert (a + b)[..|a + b| - 1] == a + b[..|b| - 1];
      RunAppend(jar, version, exec, st, a, b[..|b| - 1]);
    } else {
      assert a + b == a;
    }
  }
}
