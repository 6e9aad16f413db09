/**
 * The path-based calls as code over a shared filesystem: temporary file, payload loop, flush,
 * close, link, removal, directory sync, and the catch-all handler. Other processes may do
 * anything to the filesystem between two system calls. The code is proved to follow the process
 * of module CommitProtocol step by step; module SharedRuns puts several calls together. The
 * payload loops stand here a second time because their output is a temporary file instead of a
 * stream; they share their reading, sealing and opening parts with module FileStreams.
 */
module PathRuns {
  import opened ByteStrings
  import opened Gcm
  import opened FileCrypto
  import opened Streams
  import opened FileFormat
  import opened FileStreams
  import opened CommitProtocol

  datatype Errno = Success | AlreadyExists | OtherErrno

  /**
   * A system call of this process: the filesystem it met, where its result depends on that, and
   * whether it failed for a reason of its own.
   */
  datatype SysCall =
    | StatCall(fs: Fs, path: Path, fails: bool)
    | RandomCall(fails: bool)
    | CreateCall(fs: Fs, path: Path, fails: bool)
    | HandleCall(fails: bool)
    | InputCall(fails: bool)
    | WriteCall(fails: bool)
    | FlushCall(fails: bool)
    | CloseCall(fails: bool)
    | LinkCall(fs: Fs, from: Path, to: Path, fails: bool)
    | SyncCall(fails: bool)
    | UnlinkCall(fails: bool)
    | QuietCloseCall

  /** The error a system call stands for. Quiet removals and closes stand for none. */
  function Fault(call: SysCall): Option<ErrorCode> {
    match call
    case StatCall(fs, path, fails) =>
      if fails then Some(BackendFailure) else if path in fs.names then Some(InvalidInput) else None
    case CreateCall(fs, path, fails) => if fails && path !in fs.names then Some(BackendFailure) else None
    case LinkCall(fs, from, to, fails) =>
      if fails || from !in fs.names then Some(BackendFailure) else if to in fs.names then Some(InvalidInput) else None
    case UnlinkCall(_) => None
    case QuietCloseCall => None
    case _ => if call.fails then Some(BackendFailure) else None
  }

  /** A temporary name that was taken. */
  predicate Collides(call: SysCall) {
    call.CreateCall? && call.path in call.fs.names
  }

  function Collisions(calls: seq<SysCall>): nat
    decreases |calls|
  {
    if calls == [] then 0
    else Collisions(calls[..|calls| - 1]) + if Collides(calls[|calls| - 1]) then 1 else 0
  }

  /** The error of the first system call that stands for one; the 32nd taken name does, too. */
  function FirstFault(calls: seq<SysCall>): Option<ErrorCode>
    decreases |calls|
  {
    if calls == [] then None
    else
      var earlier, last := FirstFault(calls[..|calls| - 1]), calls[|calls| - 1];
      if earlier.Some? then earlier
      else if Collides(last) && Collisions(calls) == 32 then Some(BackendFailure)
      else Fault(last)
  }

  /** How a call with this payload outcome must end, given its system calls. */
  function Verdict(calls: seq<SysCall>, outcome: Outcome): Outcome {
    match FirstFault(calls) case Some(e) => Failed(e) case None => outcome
  }

  lemma {:induction false} OneMoreCall(calls: seq<SysCall>, call: SysCall)
    ensures Collisions(calls + [call]) == Collisions(calls) + if Collides(call) then 1 else 0
    ensures FirstFault(calls + [call])
            == if FirstFault(calls).Some? then FirstFault(calls)
               else if Collides(call) && Collisions(calls) == 31 then Some(BackendFailure)
               else Fault(call)
  {
    assert (calls + [call])[..|calls|] == calls;
  }

  /** A call that depends on nothing but itself. */
  predicate Plain(call: SysCall) {
    !call.StatCall? && !call.CreateCall? && !call.LinkCall? && !call.UnlinkCall? && !call.QuietCloseCall?
  }

  lemma {:induction false} PlainCall(calls: seq<SysCall>, call: SysCall, outcome: Outcome)
    requires Plain(call) && FirstFault(calls) == None
    ensures Collisions(calls + [call]) == Collisions(calls)
    ensures if call.fails then Verdict(calls + [call], outcome) == Failed(BackendFailure)
            else FirstFault(calls + [call]) == None
  {
    hide FirstFault, Collisions;
    OneMoreCall(calls, call);
  }

  /** Quiet calls stand for no error. */
  lemma {:induction false} QuietCall(calls: seq<SysCall>, call: SysCall, outcome: Outcome)
    requires call.UnlinkCall? || call == QuietCloseCall
    ensures Verdict(calls + [call], outcome) == Verdict(calls, outcome)
    ensures FirstFault(calls + [call]) == FirstFault(calls)
  {
    hide FirstFault, Collisions;
    OneMoreCall(calls, call);
  }

  lemma {:induction false} LinkCallStands(calls: seq<SysCall>, call: SysCall, outcome: Outcome)
    requires call.LinkCall? && FirstFault(calls) == None
    ensures if call.fails || call.from !in call.fs.names then Verdict(calls + [call], outcome) == Failed(BackendFailure)
            else if call.to in call.fs.names then Verdict(calls + [call], outcome) == Failed(InvalidInput)
            else FirstFault(calls + [call]) == None
  {
    hide FirstFault, Collisions;
    OneMoreCall(calls, call);
  }

  /**
   * Every outcome but the payload's own names its cause: a system call that stands for that
   * error, or 32 taken names. If there is no such cause, the outcome is the payload's own.
   */
  lemma {:induction false} VerdictNamesCause(calls: seq<SysCall>, outcome: Outcome)
    ensures Verdict(calls, outcome) != outcome ==>
              || (exists k ::
                    && 0 <= k < |calls| && Fault(calls[k]).Some?
                    && Verdict(calls, outcome) == Failed(Fault(calls[k]).value))
              || (Collisions(calls) >= 32 && Verdict(calls, outcome) == Failed(BackendFailure))
    ensures (forall k | 0 <= k < |calls| :: Fault(calls[k]) == None) && Collisions(calls) < 32 ==>
              Verdict(calls, outcome) == outcome
    decreases |calls|
  {
    if calls != [] {
      var earlier, last := calls[..|calls| - 1], calls[|calls| - 1];
      assert calls == earlier + [last];
      OneMoreCall(earlier, last);
      VerdictNamesCause(earlier, outcome);
      assert forall k | 0 <= k < |earlier| :: calls[k] == earlier[k];
    }
  }

  /** The system calls, with a record of them and of what they changed. Each may fail for reasons of its own. */
  class Kernel {
    var fs: Fs
    ghost var used: set<Path>
    ghost var changes: seq<Effect>
    ghost var calls: seq<SysCall>

    constructor (fs: Fs)
      ensures this.fs == fs && used == {} && changes == [] && calls == []
    {
      this.fs, used, changes, calls := fs, {}, [], [];
    }

    /** Whatever the other processes do meanwhile: nothing is promised about the filesystem. */
    method Others()
      modifies this`fs, this`used
    {
    }

    method Stat(path: Path) returns (r: Option<bool>)
      modifies this`calls
      ensures calls == old(calls) + [StatCall(fs, path, r == None)]
      ensures r.Some? ==> r.value == (path in fs.names)
    {
      var fails: bool := *;
      calls := calls + [StatCall(fs, path, fails)];
      return if fails then None else Some(path in fs.names);
    }

    /** `open` with `O_CREAT | O_EXCL`. */
    method OpenExclusive(path: Path) returns (r: Errno, inode: Inode)
      modifies this
      ensures calls == old(calls) + [CreateCall(old(fs), path, r == OtherErrno)]
      ensures r == AlreadyExists <==> path in old(fs.names)
      ensures r != Success ==> fs == old(fs) && used == old(used) && changes == old(changes)
      ensures r == Success ==>
                && path !in old(fs.names) && inode !in old(fs.data)
                && fs == Apply(old(fs), Create(path, inode)) && used == old(used) + {path}
                && changes == old(changes) + [Create(path, inode)]
    {
      inode := *;
      var fails: bool := *;
      fails := fails || inode in fs.data;
      calls := calls + [CreateCall(fs, path, fails && path !in fs.names)];
      if path in fs.names {
        return AlreadyExists, inode;
      }
      if fails {
        return OtherErrno, inode;
      }
      fs := Apply(fs, Create(path, inode));
      used := used + {path};
      changes := changes + [Create(path, inode)];
      return Success, inode;
    }

    method AppendTo(inode: Inode, part: Bytes)
      modifies this`fs, this`changes
      ensures fs == Apply(old(fs), Append(inode, part)) && changes == old(changes) + [Append(inode, part)]
    {
      fs := Apply(fs, Append(inode, part));
      changes := changes + [Append(inode, part)];
    }

    /** `link`: atomic, and refused when the new name is bound. */
    method LinkName(from: Path, to: Path) returns (r: Errno)
      modifies this`fs, this`changes, this`calls
      ensures exists fails :: calls == old(calls) + [LinkCall(old(fs), from, to, fails)] && (fails ==> r == OtherErrno)
      ensures r == OtherErrno ==> calls[|calls| - 1].fails || from !in old(fs.names)
      ensures r == Success ==>
                && from in old(fs.names) && to !in old(fs.names)
                && fs == Apply(old(fs), Link(from, to)) && changes == old(changes) + [Link(from, to)]
      ensures r == AlreadyExists ==> from in old(fs.names) && to in old(fs.names)
      ensures r != Success ==> fs == old(fs) && changes == old(changes)
    {
      var fails: bool := *;
      calls := calls + [LinkCall(fs, from, to, fails)];
      if fails || from !in fs.names {
        return OtherErrno;
      }
      if to in fs.names {
        return AlreadyExists;
      }
      fs := Apply(fs, Link(from, to));
      changes := changes + [Link(from, to)];
      return Success;
    }

    method UnlinkName(path: Path) returns (ok: bool)
      modifies this`fs, this`changes, this`calls
      ensures calls == old(calls) + [UnlinkCall(!ok)]
      ensures fs == if ok then Apply(old(fs), Unlink(path)) else old(fs)
      ensures changes == if ok then old(changes) + [Unlink(path)] else old(changes)
    {
      ok := *;
      calls := calls + [UnlinkCall(!ok)];
      if ok {
        fs := Apply(fs, Unlink(path));
        changes := changes + [Unlink(path)];
      }
    }

    /** A draw from the random source. */
    method Random() returns (ok: bool)
      modifies this`calls
      ensures calls == old(calls) + [RandomCall(!ok)]
    {
      ok := *;
      calls := calls + [RandomCall(!ok)];
    }

    /** `fdopen`. */
    method MakeHandle() returns (ok: bool)
      modifies this`calls
      ensures calls == old(calls) + [HandleCall(!ok)]
    {
      ok := *;
      calls := calls + [HandleCall(!ok)];
    }

    method OpenInput() returns (ok: bool)
      modifies this`calls
      ensures calls == old(calls) + [InputCall(!ok)]
    {
      ok := *;
      calls := calls + [InputCall(!ok)];
    }

    /** `fwrite`; `n` is how much of the buffer it hands on. */
    method Fwrite() returns (ok: bool, n: nat)
      modifies this`calls
      ensures calls == old(calls) + [WriteCall(!ok)]
    {
      ok, n := *, *;
      calls := calls + [WriteCall(!ok)];
    }

    /** `fflush` and `fsync`; `n` is how much of the buffer they hand on if one of them fails. */
    method Fsync() returns (ok: bool, n: nat)
      modifies this`calls
      ensures calls == old(calls) + [FlushCall(!ok)]
    {
      ok, n := *, *;
      calls := calls + [FlushCall(!ok)];
    }

    method Fclose() returns (ok: bool)
      modifies this`calls
      ensures calls == old(calls) + [CloseCall(!ok)]
    {
      ok := *;
      calls := calls + [CloseCall(!ok)];
    }

    /** `fclose` with its result thrown away; `n` is how much of the buffer it hands on. */
    method FcloseQuietly() returns (n: nat)
      modifies this`calls
      ensures calls == old(calls) + [QuietCloseCall]
    {
      n := *;
      calls := calls + [QuietCloseCall];
    }

    /** Opening, syncing and closing a directory. */
    method SyncDirectory() returns (ok: bool)
      modifies this`calls
      ensures calls == old(calls) + [SyncCall(!ok)]
    {
      ok := *;
      calls := calls + [SyncCall(!ok)];
    }
  }

  /** One step of a process: the filesystem it found, what it did, and the change that made. */
  datatype Observation = Observation(fs: Fs, used: set<Path>, action: Action, effect: Effect)

  /** All changes of a sequence of steps. */
  function Changes(seen: seq<Observation>): seq<Effect>
    decreases |seen|
  {
    if seen == [] then []
    else
      var earlier, o := seen[..|seen| - 1], seen[|seen| - 1];
      if o.effect == Nothing then Changes(earlier) else Changes(earlier) + [o.effect]
  }

  /** `q` is reached from `p` by enabled steps, each taken in the filesystem observed at that step. */
  ghost predicate Follows(output: Path, p: Proc, seen: seq<Observation>, q: Proc)
    decreases |seen|
  {
    if seen == [] then p == q
    else
      var o := seen[|seen| - 1];
      exists r :: Follows(output, p, seen[..|seen| - 1], r) && StepsTo(output, o, r, q)
  }

  ghost predicate StepsTo(output: Path, o: Observation, r: Proc, q: Proc) {
    Step(output, o.fs, o.used, r, o.action) == Some((o.effect, q))
  }

  lemma {:induction false} FollowsExtend(
      output: Path, p: Proc, seen: seq<Observation>, r: Proc, o: Observation, q: Proc)
    requires StepsTo(output, o, r, q)
    ensures Follows(output, p, seen, r) ==> Follows(output, p, seen + [o], q)
    ensures Changes(seen + [o]) == Changes(seen) + if o.effect == Nothing then [] else [o.effect]
  {
    hide Step;
    var more := seen + [o];
    assert more[..|more| - 1] == seen && more[|more| - 1] == o;
    if Follows(output, p, seen, r) {
      assert Follows(output, p, more[..|more| - 1], r) && StepsTo(output, more[|more| - 1], r, q);
    }
  }

  /** One call: its job, its steps, its changes to the filesystem, and the process it has arrived at. */
  datatype CallRecord = CallRecord(job: Run, seen: seq<Observation>, changes: seq<Effect>, proc: Proc)

  /** The call took enabled steps of its process and changed nothing but what they change. */
  ghost predicate FollowsProtocol(output: Path, call: CallRecord) {
    Follows(output, NewProc(call.job), call.seen, call.proc) && call.changes == Changes(call.seen)
  }

  /** One path-based call: its output handle, and the process it is proved to follow. */
  class PathRun {
    const kernel: Kernel
    const output: Path
    ghost const job: Run
    var path: Path
    var file: Option<Inode>
    var pending: Bytes
    ghost var proc: Proc
    ghost var seen: seq<Observation>
    /** Every temporary name created so far was new. */
    ghost var newNames: bool

    constructor (kernel: Kernel, output: Path, ghost job: Run)
      requires kernel.changes == [] && kernel.calls == []
      ensures Valid() && this.kernel == kernel && this.output == output && this.job == job
      ensures proc == NewProc(job) && newNames
    {
      this.kernel, this.output, this.job := kernel, output, job;
      path, file, pending := "", None, [];
      proc, seen, newNames := NewProc(job), [], true;
    }

    /** The system calls made so far explain where the call stands. */
    ghost predicate Explained()
      reads this, kernel`calls
    {
      match proc.pc
      case Start => kernel.calls == []
      case Absent => FirstFault(kernel.calls) == None && Collisions(kernel.calls) == proc.attempts
      case Writing => FirstFault(kernel.calls) == None
      case CleanUp(e) => Verdict(kernel.calls, job.outcome) == Failed(e)
      case Discarded(e) => Verdict(kernel.calls, job.outcome) == Failed(e)
      case Ended(outcome) => Verdict(kernel.calls, job.outcome) == outcome
      case _ => FirstFault(kernel.calls) == None && job.outcome == Done
    }

    ghost predicate Valid()
      reads this, kernel`changes, kernel`calls
    {
      && Explained()
      && (newNames ==> Follows(output, NewProc(job), seen, proc))
      && kernel.changes == Changes(seen)
      && proc.job == job
      && (file.Some? <==> proc.open)
      && (file.Some? ==> proc.created && file.value == proc.inode && pending == proc.pending)
      && (proc.created ==> path == proc.temp)
      && (!proc.created ==> proc.pending == [])
    }

    /** Records that the code took the step `a` from the filesystem `before`, and that the step had its effect. */
    ghost method Note(before: Fs, used: set<Path>, a: Action)
      requires newNames ==> Follows(output, NewProc(job), seen, proc)
      requires var u := if newNames then used else {};
               Step(output, before, u, proc, a).Some?
               && var e := Step(output, before, u, proc, a).value.0;
                  && kernel.fs == Apply(before, e)
                  && kernel.changes == Changes(seen) + if e == Nothing then [] else [e]
      modifies this`proc, this`seen
      ensures newNames ==> Follows(output, NewProc(job), seen, proc)
      ensures kernel.changes == Changes(seen)
      ensures proc == Step(output, before, if newNames then used else {}, old(proc), a).value.1
    {
      hide Step;
      var u := if newNames then used else {};
      var (effect, next) := Step(output, before, u, proc, a).value;
      var o := Observation(before, u, a, effect);
      FollowsExtend(output, NewProc(job), seen, proc, o, next);
      seen := seen + [o];
      proc := next;
    }

    method EnsureOutputDoesNotExist() returns (r: Result<()>)
      requires Valid() && proc == NewProc(job)
      modifies this, kernel
      ensures Valid()
      ensures r.Ok? ==> proc == NewProc(job).(pc := Absent)
      ensures r.Err? ==> proc.pc == Ended(Failed(r.error))
    {
      hide Follows, Changes, Concat, TempStep, WritingStep, CommitStep, CleanUpStep;
      kernel.Others();
      ghost var before, used := kernel.fs, kernel.used;
      OneMoreCall([], StatCall(kernel.fs, output, true));
      OneMoreCall([], StatCall(kernel.fs, output, false));
      var found := kernel.Stat(output);
      if found == None {
        Note(before, used, StatFails);
        return Err(BackendFailure);
      }
      Note(before, used, CheckOutput);
      return if found.value then Err(InvalidInput) else Ok(());
    }

    /** The random source may fail, for the header as for a temporary name. */
    method DrawRandomBytes() returns (r: Result<()>)
      requires Valid() && proc == NewProc(job).(pc := Absent, attempts := proc.attempts)
      modifies this, kernel`calls
      ensures Valid()
      ensures r.Ok? ==> proc == old(proc)
      ensures r.Err? ==> proc.pc == Ended(Failed(r.error))
    {
      hide Follows, Changes, Concat, FirstFault, Collisions, Verdict, CheckStep, WritingStep, CommitStep, CleanUpStep;
      ghost var calls := kernel.calls;
      var ok := kernel.Random();
      PlainCall(calls, RandomCall(!ok), job.outcome);
      if !ok {
        Note(kernel.fs, kernel.used, EntropyFails);
        return Err(BackendFailure);
      }
      return Ok(());
    }

    /** One attempt to create a temporary file and to get a handle on it. */
    method TryOpenOutputExclusive(token: Token) returns (r: Errno)
      requires Valid() && proc == NewProc(job).(pc := Absent, attempts := proc.attempts)
      requires proc.attempts < MAX_ATTEMPTS
      modifies this, kernel
      ensures Valid()
      ensures r == AlreadyExists ==>
                var p := old(proc);
                proc == if p.attempts + 1 == MAX_ATTEMPTS then p.Fail(BackendFailure)
                        else p.(attempts := p.attempts + 1)
      ensures r == OtherErrno ==> proc.pc == Ended(Failed(BackendFailure))
      ensures r == Success ==> proc.pc == Writing && proc.open && proc.todo == job.writes
    {
      hide Follows, Changes, TempName, Concat, Apply, FirstFault, Collisions;
      hide CheckStep, WritingStep, CommitStep, CleanUpStep;
      kernel.Others();
      ApplyNothing(kernel.fs);
      ghost var before, used := kernel.fs, kernel.used;
      var name := TempName(output, token);
      ghost var calls := kernel.calls;
      var errno, inode := kernel.OpenExclusive(name);
      OneMoreCall(calls, CreateCall(before, name, errno == OtherErrno));
      if errno == Success {
        newNames := newNames && name !in used;
        r := TakeHandle(name, token, inode, before, used);
      } else {
        Note(before, used, if errno == OtherErrno then OpenFails else TryTemp(token, inode));
        r := errno;
      }
    }

    /** `fdopen` on the file just created; without a handle the file is left behind. */
    method TakeHandle(name: Path, ghost token: Token, inode: Inode, ghost before: Fs, ghost used: set<Path>)
      returns (r: Errno)
      requires Explained() && proc == NewProc(job).(pc := Absent, attempts := proc.attempts) && file == None
      requires name == TempName(output, token) && name !in before.names && inode !in before.data
      requires newNames ==> name !in used && Follows(output, NewProc(job), seen, proc)
      requires kernel.fs == Apply(before, Create(name, inode))
      requires kernel.changes == Changes(seen) + [Create(name, inode)]
      modifies this, kernel`calls
      ensures Valid()
      ensures r == Success || r == OtherErrno
      ensures r == OtherErrno ==> proc.pc == Ended(Failed(BackendFailure))
      ensures r == Success ==> proc.pc == Writing && proc.open && proc.todo == job.writes
    {
      hide Follows, Changes, TempName, Concat, Apply, FirstFault, Collisions, Verdict;
      hide CheckStep, WritingStep, CommitStep, CleanUpStep;
      path := name;
      ghost var calls := kernel.calls;
      var ok := kernel.MakeHandle();
      PlainCall(calls, HandleCall(!ok), job.outcome);
      Note(before, used, if ok then TryTemp(token, inode) else TryTempNoHandle(token, inode));
      if !ok {
        return OtherErrno;
      }
      file, pending := Some(inode), [];
      return Success;
    }

    /** Up to 32 attempts to create a temporary file under a random name. */
    method OpenUniqueTempOutput() returns (r: Result<()>)
      requires Valid() && proc == NewProc(job).(pc := Absent)
      modifies this, kernel
      ensures Valid()
      ensures r.Ok? ==> proc.pc == Writing && proc.open && proc.todo == job.writes
      ensures r.Err? ==> proc.pc == Ended(Failed(r.error))
    {
      hide Valid, Concat;
      for attempt := 0 to MAX_ATTEMPTS
        invariant Valid()
        invariant attempt < MAX_ATTEMPTS ==> proc == NewProc(job).(pc := Absent, attempts := attempt)
        invariant attempt == MAX_ATTEMPTS ==> proc.pc == Ended(Failed(BackendFailure))
      {
        r := DrawRandomBytes();
        if r.Err? {
          return;
        }
        var token: Token := *;
        var result := TryOpenOutputExclusive(token);
        if result == Success {
          return Ok(());
        }
        if result == OtherErrno {
          return Err(BackendFailure);
        }
      }
      return Err(BackendFailure);
    }

    /** Hands `n` bytes of the buffer on to the file. */
    method HandOn(n: nat)
      requires file.Some?
      modifies this`pending, kernel`fs, kernel`changes
      ensures var k := Min(n, |old(pending)|);
              && pending == old(pending)[k..]
              && kernel.fs == Apply(old(kernel.fs), Append(file.value, old(pending)[..k]))
              && kernel.changes == old(kernel.changes) + [Append(file.value, old(pending)[..k])]
    {
      var k := Min(n, |pending|);
      kernel.AppendTo(file.value, pending[..k]);
      pending := pending[k..];
    }

    /** stdio may hand a part of its buffer on at any time while the payload is written. */
    method DrainBuffer(n: nat)
      requires Valid() && proc.pc == Writing && proc.open
      modifies this, kernel
      ensures Valid() && proc == old(proc).(pending := proc.pending)
    {
      hide Follows, Changes, Concat, FirstFault, Collisions, Verdict, CheckStep, TempStep, CommitStep, CleanUpStep;
      kernel.Others();
      ghost var before, used := kernel.fs, kernel.used;
      HandOn(n);
      Note(before, used, Drain(n));
    }

    method TakeIntoBuffer(part: Bytes)
      requires Valid() && proc.pc == Writing && proc.open && proc.todo != [] && part == proc.todo[0]
      modifies this
      ensures Valid() && proc == old(proc).(pending := proc.pending, todo := old(proc.todo)[1..])
    {
      hide Follows, Changes, Concat, FirstFault, Collisions, Verdict, CheckStep, TempStep, CommitStep, CleanUpStep;
      Note(kernel.fs, kernel.used, WriteNext);
      pending := pending + part;
    }

    /** `fwrite`: the bytes go into the buffer; a failing call may have passed on a part of them. */
    method Write(part: Bytes) returns (r: Result<()>)
      requires Valid() && proc.pc == Writing && proc.open && proc.todo != [] && part == proc.todo[0]
      modifies this, kernel
      ensures Valid()
      ensures r.Ok? ==> proc.pc == Writing && proc.open && proc.todo == old(proc.todo)[1..]
      ensures r.Err? ==> proc.pc == CleanUp(r.error) && proc.created
    {
      hide Follows, Changes, Concat, Apply, FirstFault, Collisions, Verdict;
      hide CheckStep, TempStep, CommitStep, CleanUpStep;
      if part == [] {
        TakeIntoBuffer(part);
        return Ok(());
      }
      ghost var calls := kernel.calls;
      var ok, n := kernel.Fwrite();
      PlainCall(calls, WriteCall(!ok), job.outcome);
      if !ok {
        kernel.Others();
        ghost var before, used := kernel.fs, kernel.used;
        pending := pending + part;
        HandOn(n);
        Note(before, used, PayloadFails(n));
        return Err(BackendFailure);
      }
      TakeIntoBuffer(part);
      DrainBuffer(n);
      return Ok(());
    }

    /** The payload loop has written all it can and gives up. */
    ghost method GiveUp(e: ErrorCode)
      requires Valid() && proc.pc == Writing && proc.open && proc.todo == [] && job.outcome == Failed(e)
      modifies this`proc, this`seen
      ensures Valid() && proc.pc == CleanUp(e) && proc.created
    {
      hide Follows, Changes, Concat, FirstFault, Collisions, CheckStep, TempStep, CommitStep, CleanUpStep;
      Note(kernel.fs, kernel.used, PayloadEnds);
    }

    method WriteRecord(record: Bytes, sealed: Sealed, ghost rest: seq<Bytes>) returns (r: Result<()>)
      requires Valid() && proc.pc == Writing && proc.open && proc.todo == [record, sealed.text, sealed.tag] + rest
      modifies this, kernel
      ensures Valid()
      ensures r.Ok? ==> proc.pc == Writing && proc.open && proc.todo == rest
      ensures r.Err? ==> proc.pc == CleanUp(r.error) && proc.created
    {
      hide Valid;
      r := Write(record);
      if r.Err? {
        return;
      }
      r := Write(sealed.text);
      if r.Err? {
        return;
      }
      r := Write(sealed.tag);
    }

    /** The seal loop on the temporary file. */
    method SealStreamPayload(
        input: InputStream, header: Bytes, noncePrefix: NoncePrefix, key: Key, aad: Bytes, crypto: Crypto)
      returns (r: Result<()>)
      requires Valid() && input.Valid() && proc.pc == Writing && proc.open
      requires var c := Context(crypto.backend.cipher, key, header, noncePrefix, aad);
               var body := SealFrom(c, 0, input.SealSource());
               proc.todo == [header] + body.writes && job.outcome == body.outcome
      modifies this, kernel, input, crypto
      ensures Valid()
      ensures r.Ok? ==> proc.pc == Writing && proc.open && proc.todo == [] && job.outcome == Done
      ensures r.Err? ==> proc.pc == CleanUp(r.error) && proc.created
      ensures UsedLeadingNonces(noncePrefix, old(crypto.nonces), crypto.nonces)
    {
      hide Valid, SealFrom, ChunkNonce, NonceRun, UsedLeadingNonces;
      ghost var c := Context(crypto.backend.cipher, key, header, noncePrefix, aad);
      NoneUsed(noncePrefix, crypto.nonces);
      r := Write(header);
      if r.Err? {
        return;
      }

      var buffer := new byte[CHUNK_SIZE];
      var chunkIndex: u32 := 0;
      var wroteFinal := false;
      while !wroteFinal
        invariant Valid() && input.Valid() && fresh(buffer) && buffer.Length == CHUNK_SIZE
        invariant proc.pc == Writing && proc.open
        invariant UsedLeadingNonces(noncePrefix, old(crypto.nonces), crypto.nonces)
        invariant !wroteFinal ==>
                    && crypto.nonces == old(crypto.nonces) + NonceRun(noncePrefix, chunkIndex)
                    && Run(proc.todo, job.outcome) == SealFrom(c, chunkIndex, input.SealSource())
        invariant wroteFinal ==> proc.todo == [] && job.outcome == Done
        decreases !wroteFinal, |input.SealSource().bytes|
      {
        ghost var s := input.SealSource();
        NextNonceUsed(noncePrefix, old(crypto.nonces), chunkIndex);
        var next := SealNextChunk(input, buffer, header, noncePrefix, key, aad, chunkIndex, crypto);
        if next.Err? {
          GiveUp(next.error);
          return Err(next.error);
        }
        ghost var rest := SealRest(c, chunkIndex, next.value.final, s);
        r := WriteRecord(next.value.record, next.value.sealed, rest.writes);
        if r.Err? {
          return;
        }

        wroteFinal := next.value.final;
        if chunkIndex == MAX_INDEX && !wroteFinal {
          GiveUp(InvalidInput);
          return Err(InvalidInput);
        }
        chunkIndex := (chunkIndex + 1) % U32_LIMIT;
      }
      r := Ok(());
    }

    /** The open loop on the temporary file. */
    method OpenFilePayload(
        input: InputStream, header: Bytes, noncePrefix: NoncePrefix, key: Key, aad: Bytes, crypto: Crypto)
      returns (r: Result<()>)
      requires Valid() && input.Valid() && proc.pc == Writing && proc.open
      requires var c := Context(crypto.backend.cipher, key, header, noncePrefix, aad);
               Run(proc.todo, job.outcome) == OpenFrom(c, 0, input.OpenSource())
      modifies this, kernel, input
      ensures Valid()
      ensures r.Ok? ==> proc.pc == Writing && proc.open && proc.todo == [] && job.outcome == Done
      ensures r.Err? ==> proc.pc == CleanUp(r.error) && proc.created
    {
      hide Valid, OpenFrom, ReadRecord;
      ghost var c := Context(crypto.backend.cipher, key, header, noncePrefix, aad);
      var expectedIndex: u32 := 0;
      var sawFinal := false;
      while !sawFinal
        invariant Valid() && input.Valid() && proc.pc == Writing && proc.open
        invariant !sawFinal ==> Run(proc.todo, job.outcome) == OpenFrom(c, expectedIndex, input.OpenSource())
        invariant sawFinal ==> proc.todo == [] && job.outcome == Done
        decreases !sawFinal, |input.OpenSource().bytes|
      {
        ghost var s := input.OpenSource();
        OpenStep(c, expectedIndex, s);
        var record, plain := ReadAndDecrypt(input, header, noncePrefix, key, aad, expectedIndex, crypto);
        if record.Err? {
          GiveUp(record.error);
          return Err(record.error);
        }
        ghost var p := ReadRecord(c, expectedIndex, s).value;
        ghost var rest := OpenRest(c, expectedIndex, p, s.fault);
        assert proc.todo == [plain] + rest.writes;
        r := Write(plain);
        if r.Err? {
          return;
        }
        assert proc.todo == rest.writes;

        sawFinal := record.value.final;
        if expectedIndex == MAX_INDEX && !sawFinal {
          GiveUp(InvalidPacket);
          return Err(InvalidPacket);
        }
        expectedIndex := (expectedIndex + 1) % U32_LIMIT;
      }
      r := Ok(());
    }

    /** Opening the input may fail; nothing has been written then. */
    method OpenInput() returns (r: Result<()>)
      requires Valid() && proc.pc == Writing && proc.open
      modifies this, kernel`calls
      ensures Valid()
      ensures r.Ok? ==> proc == old(proc)
      ensures r.Err? ==> proc.pc == CleanUp(r.error) && proc.created
    {
      hide Follows, Changes, Concat, FirstFault, Collisions, Verdict, CheckStep, TempStep, CommitStep, CleanUpStep;
      ghost var calls := kernel.calls;
      var ok := kernel.OpenInput();
      PlainCall(calls, InputCall(!ok), job.outcome);
      if !ok {
        Note(kernel.fs, kernel.used, InputFails);
        return Err(BackendFailure);
      }
      return Ok(());
    }

    method Flush() returns (r: Result<()>)
      requires Valid() && proc.pc == Writing && proc.open && proc.todo == [] && job.outcome == Done
      modifies this, kernel
      ensures Valid()
      ensures r.Ok? ==> proc.pc == Flushed && proc.open
      ensures r.Err? ==> proc.pc == CleanUp(r.error) && proc.created
    {
      hide Follows, Changes, Concat, Apply, FirstFault, Collisions, Verdict;
      hide CheckStep, TempStep, CommitStep, CleanUpStep;
      kernel.Others();
      ghost var before, used, calls := kernel.fs, kernel.used, kernel.calls;
      var ok, n := kernel.Fsync();
      PlainCall(calls, FlushCall(!ok), job.outcome);
      HandOn(if ok then |pending| else n);
      Note(before, used, if ok then CommitProtocol.Flush else FlushFails(n));
      return if ok then Ok(()) else Err(BackendFailure);
    }

    /** The handle is gone whether or not closing it succeeds. */
    method Close() returns (r: Result<()>)
      requires Valid() && proc.pc == Flushed && proc.open
      modifies this, kernel`calls
      ensures Valid()
      ensures r.Ok? ==> proc.pc == Closed && proc.created && !proc.open
      ensures r.Err? ==> proc.pc == CleanUp(r.error) && proc.created
    {
      hide Follows, Changes, Concat, FirstFault, Collisions, Verdict, CheckStep, TempStep, WritingStep, CleanUpStep;
      file := None;
      ghost var calls := kernel.calls;
      var ok := kernel.Fclose();
      PlainCall(calls, CloseCall(!ok), job.outcome);
      Note(kernel.fs, kernel.used, if ok then CommitProtocol.Close else CloseFails);
      return if ok then Ok(()) else Err(BackendFailure);
    }

    /** Opens and syncs the directory; whichever part fails, the link has been made. */
    method FlushParentDirectory() returns (r: Result<()>)
      requires Valid() && proc.pc == Removed && proc.created && !proc.open
      modifies this, kernel`calls
      ensures Valid()
      ensures r.Ok? ==> proc.pc == Ended(Done)
      ensures r.Err? ==> proc.pc == CleanUp(r.error) && proc.created
    {
      hide Follows, Changes, Concat, FirstFault, Collisions, CheckStep, TempStep, WritingStep, CleanUpStep;
      ghost var calls := kernel.calls;
      var synced := kernel.SyncDirectory();
      PlainCall(calls, SyncCall(!synced), job.outcome);
      Note(kernel.fs, kernel.used, SyncDirectory(synced));
      return if synced then Ok(()) else Err(BackendFailure);
    }

    method LinkToOutput() returns (r: Errno)
      requires Valid() && proc.pc == Closed && proc.created && !proc.open
      modifies this, kernel
      ensures Valid() && proc.created && !proc.open
      ensures proc.pc == match r
                         case Success => Linked
                         case AlreadyExists => CleanUp(InvalidInput)
                         case OtherErrno => CleanUp(BackendFailure)
    {
      hide Follows, Changes, Concat, FirstFault, Collisions, Verdict, CheckStep, TempStep, WritingStep, CleanUpStep;
      kernel.Others();
      ghost var before, used, calls := kernel.fs, kernel.used, kernel.calls;
      r := kernel.LinkName(path, output);
      LinkCallStands(calls, kernel.calls[|calls|], job.outcome);
      Note(before, used, if r == OtherErrno then LinkFails else LinkOutput);
    }

    /** `link`, then quiet removal of the temporary name, then the directory sync. */
    method CommitTempFile() returns (r: Result<()>)
      requires Valid() && proc.pc == Closed && proc.created && !proc.open
      modifies this, kernel
      ensures Valid()
      ensures r.Ok? ==> proc.pc == Ended(Done)
      ensures r.Err? ==> proc.pc == CleanUp(r.error) && proc.created
    {
      hide Valid;
      var errno := LinkToOutput();
      match errno {
        case AlreadyExists =>
          return Err(InvalidInput);
        case OtherErrno =>
          return Err(BackendFailure);
        case Success =>
          RemoveQuietly();
          r := FlushParentDirectory();
      }
    }

    /** Removes the temporary name; a failure goes unreported. */
    method RemoveQuietly()
      requires Valid() && proc.created && !proc.open
      requires proc.pc == Linked || proc.pc.Discarded?
      modifies this, kernel
      ensures Valid() && proc.created && !proc.open
      ensures proc.pc == if old(proc.pc) == Linked then Removed else Ended(Failed(old(proc.pc).error))
    {
      hide Follows, Changes, Concat, FirstFault, Collisions, Verdict, CheckStep, TempStep, WritingStep;
      kernel.Others();
      ghost var before, used, calls := kernel.fs, kernel.used, kernel.calls;
      var ok := kernel.UnlinkName(path);
      QuietCall(calls, UnlinkCall(!ok), job.outcome);
      Note(before, used, RemoveTemp(ok));
    }

    /** Closes the handle; its buffer may or may not reach the file. */
    method CloseQuietly()
      requires Valid() && proc.pc.CleanUp? && proc.created && file.Some?
      modifies this, kernel
      ensures Valid() && proc.created && !proc.open && proc.pc == Discarded(old(proc.pc).error)
    {
      hide Follows, Changes, Concat, Apply, FirstFault, Collisions, Verdict;
      hide CheckStep, TempStep, WritingStep, CommitStep;
      kernel.Others();
      ghost var before, used, calls := kernel.fs, kernel.used, kernel.calls;
      var n := kernel.FcloseQuietly();
      QuietCall(calls, QuietCloseCall, job.outcome);
      HandOn(n);
      Note(before, used, Discard(n));
      file, pending := None, [];
    }

    method DiscardOutput()
      requires Valid() && proc.pc.CleanUp? && proc.created
      modifies this, kernel
      ensures Valid() && proc.created && !proc.open && proc.pc == Discarded(old(proc.pc).error)
    {
      hide Follows, Changes, Concat, Apply, FirstFault, Collisions, CheckStep, TempStep, WritingStep, CommitStep;
      if file.Some? {
        CloseQuietly();
      } else {
        ApplyNothing(kernel.fs);
        Note(kernel.fs, kernel.used, Discard(0));
      }
    }

    /** Flush, close and commit, each only after the one before succeeded. */
    method Commit() returns (r: Result<()>)
      requires Valid() && proc.pc == Writing && proc.open && proc.todo == [] && job.outcome == Done
      modifies this, kernel
      ensures Valid()
      ensures r.Ok? ==> proc.pc == Ended(Done)
      ensures r.Err? ==> proc.pc == CleanUp(r.error) && proc.created
    {
      hide Valid;
      r := Flush();
      if r.Err? {
        return;
      }
      r := Close();
      if r.Err? {
        return;
      }
      r := CommitTempFile();
    }

    /** The catch-all handler: both clean-up actions, then the error goes on. */
    method Abandon()
      requires Valid() && proc.pc.CleanUp? && proc.created
      modifies this, kernel
      ensures Valid() && proc.pc == Ended(Failed(old(proc.pc).error))
    {
      hide Valid;
      DiscardOutput();
      RemoveQuietly();
    }

    /** The `try` block of a seal: open the input, write the payload, commit. */
    method SealAndCommit(input: InputStream, header: FileHeader, key: Key, aad: Bytes, crypto: Crypto)
      returns (r: Result<()>)
      requires Valid() && input.Valid() && proc.pc == Writing && proc.open
      requires var c := Context(crypto.backend.cipher, key, header.serialized, header.noncePrefix, aad);
               var body := SealFrom(c, 0, input.SealSource());
               proc.todo == [header.serialized] + body.writes && job.outcome == body.outcome
      modifies this, kernel, input, crypto
      ensures Valid()
      ensures r.Ok? ==> proc.pc == Ended(Done)
      ensures r.Err? ==> proc.pc == CleanUp(r.error) && proc.created
      ensures UsedLeadingNonces(header.noncePrefix, old(crypto.nonces), crypto.nonces)
    {
      hide Valid, SealFrom, UsedLeadingNonces;
      NoneUsed(header.noncePrefix, crypto.nonces);
      r := OpenInput();
      if r.Err? {
        return;
      }
      r := SealStreamPayload(input, header.serialized, header.noncePrefix, key, aad, crypto);
      if r.Err? {
        return;
      }
      r := Commit();
    }

    /** The `try` block of an open: open the input, read the header, write the payload, commit. */
    method OpenAndCommit(input: InputStream, secret: Secret, aad: Bytes, crypto: Crypto) returns (r: Result<()>)
      requires Valid() && input.Valid() && proc.pc == Writing && proc.open && !EmptyPassword(secret)
      requires Run(proc.todo, job.outcome) == OpenRun(crypto.backend, secret, aad, input.OpenSource())
      modifies this, kernel, input
      ensures Valid()
      ensures r.Ok? ==> proc.pc == Ended(Done)
      ensures r.Err? ==> proc.pc == CleanUp(r.error) && proc.created
    {
      hide Valid, OpenFrom, ParseHeaderOf;
      r := OpenInput();
      if r.Err? {
        return;
      }
      var parsed := ReadHeader(input, secret.Format());
      if parsed.Err? {
        GiveUp(parsed.error);
        return Err(parsed.error);
      }
      var header := parsed.value;
      var fileKey := DeriveKey(crypto.backend.kdf, secret, header.salt);
      r := OpenFilePayload(input, header.serialized, header.noncePrefix, fileKey, aad, crypto);
      if r.Err? {
        return;
      }
      r := Commit();
    }

    /** What this call has done so far. */
    ghost function Record(): CallRecord
      reads this, kernel`changes
    {
      CallRecord(job, seen, kernel.changes, proc)
    }

    /**
     * How a call stands when it returns: it went through the protocol's steps, changed nothing
     * else, and its outcome is the payload's own unless a system call stands for another.
     */
    ghost predicate Followed(outcome: Outcome)
      reads this, kernel`changes, kernel`calls
    {
      && outcome == Verdict(kernel.calls, job.outcome)
      && proc.pc == Ended(outcome) && proc.job == job && kernel.changes == Changes(seen)
      && (newNames ==> FollowsProtocol(output, Record()))
    }

    lemma {:induction false} EndedIsFollowed(outcome: Outcome)
      requires Valid() && proc.pc == Ended(outcome)
      ensures Followed(outcome)
    {
      hide Follows, Changes, FirstFault, Collisions;
    }

    /**
     * `seal_file` and `seal_file_with_password` on paths. An empty password is refused before
     * the filesystem is looked at. Otherwise, whatever other processes do in between, the call
     * follows the protocol's process from start to end, with the seal of its input as the job,
     * changes the filesystem by exactly the changes of those steps, and reports how that ended:
     * as the seal of its input does, unless one of its system calls stands for an error.
     */
    method SealFile(
        input: InputStream, secret: Secret, aad: Bytes, crypto: Crypto, salt: Salt, noncePrefix: NoncePrefix)
      returns (outcome: Outcome)
      requires Valid() && input.Valid() && proc == NewProc(job) && newNames
      requires job == SealRun(crypto.backend, secret, aad, salt, noncePrefix, input.SealSource())
      modifies this, kernel, input, crypto
      ensures EmptyPassword(secret) ==>
                && outcome == Failed(InvalidInput) && kernel.fs == old(kernel.fs)
                && kernel.changes == old(kernel.changes) && kernel.calls == old(kernel.calls)
      ensures !EmptyPassword(secret) ==> Followed(outcome)
      ensures UsedLeadingNonces(noncePrefix, old(crypto.nonces), crypto.nonces)
    {
      hide Valid, Followed, SealFrom, UsedLeadingNonces;
      NoneUsed(noncePrefix, crypto.nonces);
      if secret.Password? && secret.text == [] {
        return Failed(InvalidInput);
      }
      var checked := EnsureOutputDoesNotExist();
      if checked.Err? {
        EndedIsFollowed(Failed(checked.error));
        return Failed(checked.error);
      }
      var drawn := DrawRandomBytes();
      if drawn.Err? {
        EndedIsFollowed(Failed(drawn.error));
        return Failed(drawn.error);
      }
      var header: FileHeader;
      match secret {
        case MasterKey(_) => header := MakeHeader(salt, noncePrefix);
        case Password(_) => header := MakePasswordHeader(salt, noncePrefix);
      }
      var fileKey := DeriveKey(crypto.backend.kdf, secret, header.salt);
      var created := OpenUniqueTempOutput();
      if created.Err? {
        EndedIsFollowed(Failed(created.error));
        return Failed(created.error);
      }
      var committed := SealAndCommit(input, header, fileKey, aad, crypto);
      if committed.Err? {
        Abandon();
        EndedIsFollowed(Failed(committed.error));
        return Failed(committed.error);
      }
      EndedIsFollowed(Done);
      return Done;
    }

    /** `open_file` and `open_file_with_password` on paths, likewise. */
    method OpenFile(input: InputStream, secret: Secret, aad: Bytes, crypto: Crypto) returns (outcome: Outcome)
      requires Valid() && input.Valid() && proc == NewProc(job) && newNames
      requires job == OpenRun(crypto.backend, secret, aad, input.OpenSource())
      modifies this, kernel, input
      ensures EmptyPassword(secret) ==>
                && outcome == Failed(InvalidInput) && kernel.fs == old(kernel.fs)
                && kernel.changes == old(kernel.changes) && kernel.calls == old(kernel.calls)
      ensures !EmptyPassword(secret) ==> Followed(outcome)
    {
      hide Valid, Followed, OpenRun;
      if secret.Password? && secret.text == [] {
        return Failed(InvalidInput);
      }
      var checked := EnsureOutputDoesNotExist();
      if checked.Err? {
        EndedIsFollowed(Failed(checked.error));
        return Failed(checked.error);
      }
      var created := OpenUniqueTempOutput();
      if created.Err? {
        EndedIsFollowed(Failed(created.error));
        return Failed(created.error);
      }
      var committed := OpenAndCommit(input, secret, aad, crypto);
      if committed.Err? {
        Abandon();
        EndedIsFollowed(Failed(committed.error));
        return Failed(committed.error);
      }
      EndedIsFollowed(Done);
      return Done;
    }
  }
}
