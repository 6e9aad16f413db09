/**
 * Path-based calls that share a filesystem and an output name. Calls that each keep to the
 * protocol, as the code of module PathRuns ensures, are together a run of the system of module
 * CommitProtocol, so its theorems over all interleavings hold of them.
 */
module SharedRuns {
  import opened ByteStrings
  import opened FileCrypto
  import opened Streams
  import opened FileFormat
  import opened Acceptance
  import opened Sealing
  import opened CommitProtocol
  import opened PathRuns

  // ---------------------------------------------------------------- calls on one filesystem

  /** One step of one of the calls that share a filesystem. */
  datatype Entry = Entry(pid: Pid, step: Observation)

  /** What the changes of a log make of a filesystem, and of the temporary names used. */
  function FsAfter(fs: Fs, log: seq<Entry>): Fs
    decreases |log|
  {
    if log == [] then fs
    else Apply(FsAfter(fs, log[..|log| - 1]), log[|log| - 1].step.effect)
  }

  function UsedAfter(used: set<Path>, log: seq<Entry>): set<Path>
    decreases |log|
  {
    if log == [] then used
    else MoreUsed(UsedAfter(used, log[..|log| - 1]), log[|log| - 1].step.effect)
  }

  /** The steps of one call in a log. */
  function OwnSteps(log: seq<Entry>, pid: Pid): seq<Observation>
    decreases |log|
  {
    if log == [] then []
    else
      var earlier, last := OwnSteps(log[..|log| - 1], pid), log[|log| - 1];
      if last.pid == pid then earlier + [last.step] else earlier
  }

  /** Each step found what the earlier steps of all calls had made of the filesystem. */
  ghost predicate Shared(s: System, log: seq<Entry>)
    decreases |log|
  {
    log == []
    || (var earlier, last := log[..|log| - 1], log[|log| - 1];
        && Shared(s, earlier)
        && last.step.fs == FsAfter(s.fs, earlier) && last.step.used == UsedAfter(s.used, earlier))
  }

  /** Calls that share the filesystem of `s`, in the order of `log`; each keeps to the protocol, as it ensures. */
  ghost predicate SharedRun(output: Path, s: System, log: seq<Entry>, calls: map<Pid, CallRecord>) {
    && Shared(s, log)
    && calls.Keys == s.procs.Keys
    && (forall k | 0 <= k < |log| :: log[k].pid in calls)
    && (forall pid | pid in calls ::
          && s.procs[pid] == NewProc(calls[pid].job)
          && FollowsProtocol(output, calls[pid]) && OwnSteps(log, pid) == calls[pid].seen)
  }

  function Events(log: seq<Entry>): (r: seq<Event>)
    ensures |r| == |log|
  {
    seq(|log|, k requires 0 <= k < |log| => Event(log[k].pid, log[k].step.action))
  }

  /** The filesystem that the calls' changes made, with the processes the calls arrived at. */
  function Arrived(s: System, log: seq<Entry>, calls: map<Pid, CallRecord>): System {
    System(FsAfter(s.fs, log), map pid | pid in calls :: calls[pid].proc, UsedAfter(s.used, log))
  }

  /**
   * Composition: calls that each keep to the protocol, on one filesystem, are together a run of
   * the whole system. It arrives at the filesystem their changes made, and at their processes.
   */
  lemma {:induction false} SharedRunIsSystemRun(
      output: Path, s: System, log: seq<Entry>, calls: map<Pid, CallRecord>)
    requires SharedRun(output, s, log, calls)
    ensures After(output, s, Events(log)) == Arrived(s, log, calls)
    decreases |log|
  {
    hide After, Arrived, StepsTo, FollowsProtocol;
    if log == [] {
      NoStepsYet(output, s, calls);
      AfterNothing(output, s);
      assert Events(log) == [];
    } else {
      var earlier, last := log[..|log| - 1], log[|log| - 1];
      var event := Event(last.pid, last.step.action);
      var before := BeforeLast(output, s, log, calls);
      SharedRunIsSystemRun(output, s, earlier, before);
      PerformLast(output, s, log, calls, before);
      assert Events(log) == Events(earlier) + [event];
      AfterSplit(output, s, Events(earlier), [event]);
      AfterOne(output, Arrived(s, earlier, before), last.pid, last.step.action);
    }
  }

  lemma {:induction false} NoStepsYet(output: Path, s: System, calls: map<Pid, CallRecord>)
    requires SharedRun(output, s, [], calls)
    ensures Arrived(s, [], calls) == s
  {
    forall pid | pid in calls
      ensures calls[pid].proc == s.procs[pid]
    {
      assert calls[pid].seen == OwnSteps([], pid) == [];
    }
    assert Arrived(s, [], calls).procs == s.procs;
  }

  lemma {:induction false} PerformLast(
      output: Path, s: System, log: seq<Entry>, calls: map<Pid, CallRecord>, before: map<Pid, CallRecord>)
    requires log != [] && Shared(s, log)
    requires var last := log[|log| - 1];
             && last.pid in calls && last.pid in before && calls == before[last.pid := calls[last.pid]]
             && StepsTo(output, last.step, before[last.pid].proc, calls[last.pid].proc)
    ensures var last := log[|log| - 1];
            Perform(output, Arrived(s, log[..|log| - 1], before), last.pid, last.step.action) == Arrived(s, log, calls)
  {
    hide Step, Apply;
    var earlier, last := log[..|log| - 1], log[|log| - 1];
    assert Arrived(s, log, calls).procs == Arrived(s, earlier, before).procs[last.pid := calls[last.pid].proc];
  }

  lemma {:induction false} AfterOne(output: Path, s: System, pid: Pid, a: Action)
    ensures After(output, s, [Event(pid, a)]) == Perform(output, s, pid, a)
  {
    assert [Event(pid, a)][1..] == [];
  }

  /** The calls as they stood before the last step of a log: only the one that took it was elsewhere. */
  lemma {:induction false} BeforeLast(output: Path, s: System, log: seq<Entry>, calls: map<Pid, CallRecord>)
    returns (before: map<Pid, CallRecord>)
    requires log != [] && SharedRun(output, s, log, calls)
    ensures SharedRun(output, s, log[..|log| - 1], before)
    ensures var last := log[|log| - 1];
            && last.pid in calls && last.pid in before && calls == before[last.pid := calls[last.pid]]
            && StepsTo(output, last.step, before[last.pid].proc, calls[last.pid].proc)
  {
    hide StepsTo, Changes;
    var last := log[|log| - 1];
    var call := calls[last.pid];
    var m := |call.seen| - 1;
    assert call.seen == OwnSteps(log, last.pid);
    assert call.seen[m] == last.step && call.seen[..m] == OwnSteps(log[..|log| - 1], last.pid);
    var r :| Follows(output, NewProc(call.job), call.seen[..m], r) && StepsTo(output, call.seen[m], r, call.proc);
    before := calls[last.pid := CallRecord(call.job, call.seen[..m], Changes(call.seen[..m]), r)];
  }

  /** All changes in a log, in order, and those of one call. */
  function AllChanges(log: seq<Entry>): seq<(Pid, Effect)>
    decreases |log|
  {
    if log == [] then []
    else
      var earlier, last := AllChanges(log[..|log| - 1]), log[|log| - 1];
      if last.step.effect == Nothing then earlier else earlier + [(last.pid, last.step.effect)]
  }

  function OwnChanges(changes: seq<(Pid, Effect)>, pid: Pid): seq<Effect>
    decreases |changes|
  {
    if changes == [] then []
    else
      var earlier, last := OwnChanges(changes[..|changes| - 1], pid), changes[|changes| - 1];
      if last.0 == pid then earlier + [last.1] else earlier
  }

  function ApplyAll(fs: Fs, changes: seq<(Pid, Effect)>): Fs
    decreases |changes|
  {
    if changes == [] then fs
    else Apply(ApplyAll(fs, changes[..|changes| - 1]), changes[|changes| - 1].1)
  }

  /** The filesystem is made by the changes of the calls alone, and each call's part of them is what it recorded. */
  lemma {:induction false} ChangesMakeFilesystem(fs: Fs, log: seq<Entry>, pid: Pid)
    ensures FsAfter(fs, log) == ApplyAll(fs, AllChanges(log))
    ensures OwnChanges(AllChanges(log), pid) == Changes(OwnSteps(log, pid))
    decreases |log|
  {
    hide Apply;
    if log != [] {
      var earlier, last := log[..|log| - 1], log[|log| - 1];
      ChangesMakeFilesystem(fs, earlier, pid);
      ApplyNothing(FsAfter(fs, earlier));
      var c := AllChanges(earlier);
      assert (c + [(last.pid, last.step.effect)])[..|c|] == c;
      var o := OwnSteps(earlier, pid);
      assert (o + [last.step])[..|o|] == o;
    }
  }

  // ---------------------------------------------------------------- end to end

  /** The output name holds the result of process `pid`. */
  ghost predicate Delivered(output: Path, s: System, pid: Pid) {
    Won(s, pid) && output in s.fs.names && s.fs.names[output] in s.fs.data
    && s.fs.data[s.fs.names[output]] == s.procs[pid].Result()
  }

  lemma {:induction false} WinnerDelivers(output: Path, s: System, events: seq<Event>, pid: Pid)
    requires Init(s) && Won(After(output, s, events), pid)
    ensures var end := After(output, s, events);
            Delivered(output, end, pid) && end.procs[pid].job.outcome == Done
  {
    InitIsOk(output, s);
    RunKeeps(output, s.fs, s, events);
    var end := After(output, s, events);
    assert ProcOk(output, s.fs, end.fs, end.used, end.procs[pid]);
  }

  /**
   * What calls that share a filesystem and an output name achieve, in every order of their steps.
   * The filesystem is made by their recorded changes alone. A call that reports success has its
   * complete result in the output; it bound the output and still fails exactly if its directory
   * sync failed, and then the complete result is in place; when it did not bind the output, the
   * output is not its file; and its temporary name stays exactly if no handle could be made for
   * the file or every removal failed.
   */
  lemma {:induction false} CallOutcome(
      output: Path, s: System, log: seq<Entry>, calls: map<Pid, CallRecord>, pid: Pid)
    requires Init(s) && SharedRun(output, s, log, calls) && pid in calls && calls[pid].proc.pc.Ended?
    ensures OwnChanges(AllChanges(log), pid) == calls[pid].changes
    ensures var end := Arrived(s, log, calls);
            var q := calls[pid].proc;
            && end.fs == ApplyAll(s.fs, AllChanges(log))
            && (q.pc.outcome == Done ==> Won(end, pid))
            && (q.pc.outcome.Failed? && Won(end, pid) <==> q.syncFailed)
            && (Won(end, pid) ==>
                  && Delivered(output, end, pid) && q.job.outcome == Done
                  && (q.pc.outcome == Done || q.pc.outcome == Failed(BackendFailure)))
            && (!Won(end, pid) && q.created && output in end.fs.names ==> end.fs.names[output] != q.inode)
            && (q.created ==> (q.temp in end.fs.names <==> q.noHandle || q.failedRemovals == Removals(q)))
  {
    hide Follows, After, Changes;
    SharedRunIsSystemRun(output, s, log, calls);
    ChangesMakeFilesystem(s.fs, log, pid);
    CommitOutcome(output, s, Events(log), pid);
  }

  lemma {:induction false} PrefixOfSharedRun(
      output: Path, s: System, log: seq<Entry>, calls: map<Pid, CallRecord>, k: nat)
    returns (earlier: map<Pid, CallRecord>)
    requires SharedRun(output, s, log, calls) && k <= |log|
    ensures SharedRun(output, s, log[..k], earlier)
    decreases |log| - k
  {
    hide SharedRun;
    if k == |log| {
      assert log[..k] == log;
      earlier := calls;
    } else {
      var n := |log| - 1;
      var before := BeforeLast(output, s, log, calls);
      earlier := PrefixOfSharedRun(output, s, log[..n], before, k);
      assert log[..n][..k] == log[..k];
    }
  }

  /**
   * Safety of calls that share a filesystem, at every moment: the output is safe, what it was
   * bound to after any earlier step `k` it is still bound to, with the same bytes, and at most
   * one call bound it, none if it existed at the start.
   */
  lemma {:induction false} CallsAreSafe(
      output: Path, s: System, log: seq<Entry>, calls: map<Pid, CallRecord>, k: nat)
    requires Init(s) && SharedRun(output, s, log, calls) && k <= |log|
    ensures var mid, end := FsAfter(s.fs, log[..k]), Arrived(s, log, calls);
            && OutputSafe(output, s.fs, end)
            && (output in mid.names ==>
                  && output in end.fs.names && end.fs.names[output] == mid.names[output]
                  && mid.names[output] in mid.data && mid.names[output] in end.fs.data
                  && end.fs.data[mid.names[output]] == mid.data[mid.names[output]])
            && (forall pid, qid | Won(end, pid) && Won(end, qid) :: pid == qid)
            && (output in s.fs.names ==> forall pid :: !Won(end, pid))
  {
    hide SharedRun, After;
    SharedRunIsSystemRun(output, s, log, calls);
    var earlier := PrefixOfSharedRun(output, s, log, calls, k);
    SharedRunIsSystemRun(output, s, log[..k], earlier);
    assert Events(log[..k]) + Events(log[k..]) == Events(log);
    CommitSafety(output, s, Events(log[..k]), Events(log[k..]));
  }

  /**
   * Whatever else happens on the output name: if an open bound it, the output holds a text that
   * the input encodes under the caller's secret and AAD, and nothing else.
   */
  lemma {:induction false} OpenedOutputIsAuthentic(
      output: Path, s: System, events: seq<Event>, pid: Pid, b: Backend, secret: Secret, aad: Bytes, input: Source)
    requires Init(s) && Won(After(output, s, events), pid)
    requires After(output, s, events).procs[pid].job == OpenRun(b, secret, aad, input)
    ensures var end := After(output, s, events);
            && Delivered(output, end, pid)
            && exists salt: Salt, noncePrefix: NoncePrefix ::
                 EncodesFile(b, secret, aad, salt, noncePrefix, input.bytes, end.fs.data[end.fs.names[output]])
  {
    hide OpenRun;
    WinnerDelivers(output, s, events, pid);
    var p := Concat(OpenRun(b, secret, aad, input).writes);
    OpenNeedsProperEnd(b, secret, aad, input);
    FileAcceptance(b, secret, aad, input.bytes, p);
  }

  lemma {:induction false} OpenNeedsProperEnd(b: Backend, secret: Secret, aad: Bytes, input: Source)
    requires OpenRun(b, secret, aad, input).outcome == Done
    ensures input == Source(input.bytes, false)
  {
    hide OpenFrom, ParseHeaderOf;
    var n := HeaderSize(secret.Format());
    var h := ParseHeaderOf(secret.Format(), input.bytes[..n]).value;
    OpenReadsWholePlan(ContextOf(b, secret, h, aad), 0, Source(input.bytes[n..], input.fault));
  }

  /** If a seal bound the output, opening what the output holds gives back what was sealed. */
  lemma {:induction false} SealedOutputOpens(
      output: Path, s: System, events: seq<Event>, pid: Pid, b: Backend, secret: Secret, aad: Bytes,
      salt: Salt, noncePrefix: NoncePrefix, input: Source)
    requires Init(s) && Won(After(output, s, events), pid)
    requires After(output, s, events).procs[pid].job == SealRun(b, secret, aad, salt, noncePrefix, input)
    ensures var end := After(output, s, events);
            && Delivered(output, end, pid)
            && var reopened := OpenRun(b, secret, aad, Source(end.fs.data[end.fs.names[output]], false));
               reopened.outcome == Done && Concat(reopened.writes) == input.bytes
  {
    hide OpenRun, SealRun;
    WinnerDelivers(output, s, events, pid);
    RoundTrip(b, secret, aad, salt, noncePrefix, input);
  }

  /**
   * End to end for sealing: when a path-based seal among other calls reports success, opening
   * what the output holds gives back its input.
   */
  lemma {:induction false} ReportedSealOpens(
      output: Path, s: System, log: seq<Entry>, calls: map<Pid, CallRecord>, pid: Pid,
      b: Backend, secret: Secret, aad: Bytes, salt: Salt, noncePrefix: NoncePrefix, input: Source)
    requires Init(s) && SharedRun(output, s, log, calls) && pid in calls && calls[pid].proc.pc == Ended(Done)
    requires calls[pid].proc.job == SealRun(b, secret, aad, salt, noncePrefix, input)
    ensures var end := FsAfter(s.fs, log);
            && output in end.names && end.names[output] in end.data
            && var reopened := OpenRun(b, secret, aad, Source(end.data[end.names[output]], false));
               reopened.outcome == Done && Concat(reopened.writes) == input.bytes
  {
    hide SealRun, OpenRun, Follows, After, Changes;
    CallOutcome(output, s, log, calls, pid);
    SharedRunIsSystemRun(output, s, log, calls);
    SealedOutputOpens(output, s, Events(log), pid, b, secret, aad, salt, noncePrefix, input);
  }

  /**
   * End to end for opening: when a path-based open among other calls reports success, the output
   * holds a text that its input encodes under the caller's secret and AAD.
   */
  lemma {:induction false} ReportedOpenIsAuthentic(
      output: Path, s: System, log: seq<Entry>, calls: map<Pid, CallRecord>, pid: Pid,
      b: Backend, secret: Secret, aad: Bytes, input: Source)
    requires Init(s) && SharedRun(output, s, log, calls) && pid in calls && calls[pid].proc.pc == Ended(Done)
    requires calls[pid].proc.job == OpenRun(b, secret, aad, input)
    ensures var end := FsAfter(s.fs, log);
            && output in end.names && end.names[output] in end.data
            && exists salt: Salt, noncePrefix: NoncePrefix ::
                 EncodesFile(b, secret, aad, salt, noncePrefix, input.bytes, end.data[end.names[output]])
  {
    hide OpenRun, Follows, After, Changes, EncodesFile;
    CallOutcome(output, s, log, calls, pid);
    SharedRunIsSystemRun(output, s, log, calls);
    OpenedOutputIsAuthentic(output, s, Events(log), pid, b, secret, aad, input);
  }
}
