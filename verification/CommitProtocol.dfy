/**
 * The temp-file commit protocol of the path-based seals and opens, as steps of several
 * processes on one filesystem, for one output name. Any step may fail, and the steps of the
 * processes interleave arbitrarily. Inodes are explicit: after `link` the temporary name and
 * the output name share one.
 *
 * One assumption stands for the 128 random bits in a temporary name: a name that is created
 * was never used as a temporary name before.
 */
module CommitProtocol {
  import opened ByteStrings
  import opened Streams

  type Path = string
  type Inode = nat
  type Pid = nat
  type Token = t: Bytes | |t| == 16 witness seq(16, i => 0)

  const MAX_ATTEMPTS: nat := 32

  /** Names bound to inodes, and the contents of inodes. */
  datatype Fs = Fs(names: map<Path, Inode>, data: map<Inode, Bytes>)

  datatype LinkResult = NotTried | Bound | Exists | OtherError

  datatype Pc =
    | Start
    | Absent
    | Writing
    | Flushed
    | Closed
    | Linked
    | Removed
    | CleanUp(error: ErrorCode)
    | Discarded(error: ErrorCode)
    | Ended(outcome: Outcome)

  /**
   * One seal or open. `job` is its payload run; `todo` is what it has still to write, `pending`
   * what it has written but stdio has not handed on; `open` tells whether it holds the handle.
   * The last three fields record which of its own calls failed.
   */
  datatype Proc = Proc(
    job: Run, pc: Pc, attempts: nat,
    created: bool, temp: Path, inode: Inode, open: bool, todo: seq<Bytes>, pending: Bytes,
    link: LinkResult, unlinked: bool, noHandle: bool, failedRemovals: nat, syncFailed: bool)
  {
    function Result(): Bytes {
      Concat(job.writes)
    }

    function Fail(e: ErrorCode): Proc {
      this.(pc := Ended(Failed(e)))
    }
  }

  function NewProc(job: Run): Proc {
    Proc(job, Start, 0, false, "", 0, false, [], [], NotTried, false, false, 0, false)
  }

  datatype Action =
    | StatFails
    | CheckOutput
    | EntropyFails
    | OpenFails
    | TryTemp(token: Token, inode: Inode)
    | TryTempNoHandle(token: Token, inode: Inode)
    | InputFails
    | WriteNext
    | Drain(n: nat)
    | PayloadFails(n: nat)
    | PayloadEnds
    | Flush
    | FlushFails(n: nat)
    | Close
    | CloseFails
    | LinkOutput
    | LinkFails
    | RemoveTemp(ok: bool)
    | SyncDirectory(ok: bool)
    | Discard(n: nat)

  // ---------------------------------------------------------------- temporary names

  function HexDigit(v: nat): char
    requires v < 16
  {
    if v < 10 then '0' + v as char else 'a' + (v - 10) as char
  }

  function Hex(token: Bytes): (r: string)
    ensures |r| == 2 * |token|
  {
    if token == [] then ""
    else [HexDigit(token[0] as nat / 16), HexDigit(token[0] as nat % 16)] + Hex(token[1..])
  }

  /** The output name with 50 characters appended. */
  function TempName(output: Path, token: Token): (r: Path)
    ensures |r| == |output| + 50 && r != output
  {
    output + ".anosecurekit." + Hex(token) + ".tmp"
  }

  lemma {:induction false} HexAt(token: Bytes, i: nat)
    requires i < |token|
    ensures Hex(token)[2 * i] == "0123456789abcdef"[token[i] as nat / 16]
    ensures Hex(token)[2 * i + 1] == "0123456789abcdef"[token[i] as nat % 16]
    decreases i
  {
    HexDigits(token[i] as nat / 16);
    HexDigits(token[i] as nat % 16);
    if i > 0 {
      HexAt(token[1..], i - 1);
    }
  }

  lemma {:induction false} HexDigits(v: nat)
    requires v < 16
    ensures HexDigit(v) == "0123456789abcdef"[v]
  {
  }

  /** A temporary name is the output name, ".anosecurekit.", the token in hexadecimal, and ".tmp". */
  lemma {:induction false} TempNameLayout(output: Path, token: Token, i: nat)
    requires i < 16
    ensures var name, n := TempName(output, token), |output|;
            && |name| == n + 50 && name[..n] == output
            && name[n..n + 14] == ".anosecurekit." && name[n + 46..] == ".tmp"
            && name[n + 14 + 2 * i] == "0123456789abcdef"[token[i] as nat / 16]
            && name[n + 15 + 2 * i] == "0123456789abcdef"[token[i] as nat % 16]
  {
    HexAt(token, i);
    var name, n := TempName(output, token), |output|;
    assert name[n + 14..n + 46] == Hex(token);
    assert name[n + 14 + 2 * i] == Hex(token)[2 * i] && name[n + 15 + 2 * i] == Hex(token)[2 * i + 1];
  }

  /** Different tokens give different names. */
  lemma {:induction false} TempNameInjective(output: Path, a: Token, b: Token)
    requires TempName(output, a) == TempName(output, b)
    ensures a == b
  {
    hide TempName, Hex;
    forall i | 0 <= i < 16
      ensures a[i] == b[i]
    {
      TempNameLayout(output, a, i);
      TempNameLayout(output, b, i);
      DigitsDiffer(a[i] as nat / 16, b[i] as nat / 16);
      DigitsDiffer(a[i] as nat % 16, b[i] as nat % 16);
    }
  }

  lemma {:induction false} DigitsDiffer(v: nat, w: nat)
    requires v < 16 && w < 16 && "0123456789abcdef"[v] == "0123456789abcdef"[w]
    ensures v == w
  {
    HexDigits(v);
    HexDigits(w);
  }

  // ---------------------------------------------------------------- one step

  datatype Effect =
    | Nothing
    | Create(path: Path, inode: Inode)
    | Append(inode: Inode, part: Bytes)
    | Link(from: Path, to: Path)
    | Unlink(path: Path)

  function Apply(fs: Fs, e: Effect): Fs {
    match e
    case Nothing => fs
    case Create(path, inode) => Fs(fs.names[path := inode], fs.data[inode := []])
    case Append(inode, part) => if inode in fs.data then fs.(data := fs.data[inode := fs.data[inode] + part]) else fs
    case Link(from, to) => if from in fs.names then fs.(names := fs.names[to := fs.names[from]]) else fs
    case Unlink(path) => fs.(names := fs.names - {path})
  }

  function MoreUsed(used: set<Path>, e: Effect): set<Path> {
    if e.Create? then used + {e.path} else used
  }

  function Min(a: nat, b: nat): nat {
    if a < b then a else b
  }

  /** Handing `n` pending bytes on to the file. */
  function Drained(p: Proc, n: nat): (Effect, Proc) {
    var k := Min(n, |p.pending|);
    (Append(p.inode, p.pending[..k]), p.(pending := p.pending[k..]))
  }

  /** The created temporary file; `None` when the assumption on fresh names excludes the choice. */
  function CreateTemp(fs: Fs, used: set<Path>, p: Proc, name: Path, inode: Inode): Option<(Effect, Proc)> {
    if name in used || inode in fs.data then None
    else Some((Create(name, inode), p.(created := true, temp := name, inode := inode)))
  }

  /** `ensure_output_does_not_exist`. */
  function CheckStep(output: Path, fs: Fs, p: Proc, a: Action): Option<(Effect, Proc)> {
    match a
    case StatFails => Some((Nothing, p.Fail(BackendFailure)))
    case CheckOutput => Some((Nothing, if output in fs.names then p.Fail(InvalidInput) else p.(pc := Absent)))
    case _ => None
  }

  /** Drawing random bytes and `open_unique_temp_output`; a handle that cannot be made leaves the file behind. */
  function TempStep(output: Path, fs: Fs, used: set<Path>, p: Proc, a: Action): Option<(Effect, Proc)> {
    match a
    case EntropyFails => Some((Nothing, p.Fail(BackendFailure)))
    case OpenFails => Some((Nothing, p.Fail(BackendFailure)))
    case TryTemp(token, inode) =>
      var name := TempName(output, token);
      if name in fs.names then
        Some((Nothing,
              if p.attempts + 1 == MAX_ATTEMPTS then p.Fail(BackendFailure) else p.(attempts := p.attempts + 1)))
      else (
        match CreateTemp(fs, used, p, name, inode)
        case None => None
        case Some(x) => Some((x.0, x.1.(open := true, todo := p.job.writes, pc := Writing))))
    case TryTempNoHandle(token, inode) =>
      var name := TempName(output, token);
      if name in fs.names then None
      else (
        match CreateTemp(fs, used, p, name, inode)
        case None => None
        case Some(x) => Some((x.0, x.1.(noHandle := true).Fail(BackendFailure))))
    case _ => None
  }

  /** Opening the input, the payload loop on the handle, then `flush`. */
  function WritingStep(p: Proc, a: Action): Option<(Effect, Proc)> {
    match a
    case InputFails => Some((Nothing, p.(pc := CleanUp(BackendFailure))))
    case WriteNext =>
      if p.todo == [] then None
      else Some((Nothing, p.(pending := p.pending + p.todo[0], todo := p.todo[1..])))
    case Drain(n) => Some(Drained(p, n))
    case PayloadFails(n) =>
      // A failing write may have passed on a part of its own bytes, too.
      var all := p.pending + if p.todo == [] then [] else p.todo[0];
      var x := Drained(p.(pending := all), n);
      Some((x.0, x.1.(pc := CleanUp(BackendFailure))))
    case PayloadEnds =>
      if p.todo == [] && p.job.outcome.Failed? then Some((Nothing, p.(pc := CleanUp(p.job.outcome.error)))) else None
    case Flush =>
      if p.todo == [] && p.job.outcome == Done then
        var x := Drained(p, |p.pending|);
        Some((x.0, x.1.(pc := Flushed)))
      else None
    case FlushFails(n) =>
      if p.todo == [] && p.job.outcome == Done then
        var x := Drained(p, n);
        Some((x.0, x.1.(pc := CleanUp(BackendFailure))))
      else None
    case _ => None
  }

  /** `close`, then `commit_temp_file`: link, quiet removal of the temporary name, directory sync. */
  function CommitStep(output: Path, fs: Fs, p: Proc, a: Action): Option<(Effect, Proc)> {
    match (p.pc, a)
    case (Flushed, Close) => Some((Nothing, p.(open := false, pc := Closed)))
    case (Flushed, CloseFails) => Some((Nothing, p.(open := false, pc := CleanUp(BackendFailure))))
    case (Closed, LinkOutput) =>
      if p.temp !in fs.names then Some((Nothing, p.(link := OtherError, pc := CleanUp(BackendFailure))))
      else if output in fs.names then Some((Nothing, p.(link := Exists, pc := CleanUp(InvalidInput))))
      else Some((Link(p.temp, output), p.(link := Bound, pc := Linked)))
    case (Closed, LinkFails) => Some((Nothing, p.(link := OtherError, pc := CleanUp(BackendFailure))))
    case (Linked, RemoveTemp(ok)) => Some(Removal(p.(pc := Removed), ok))
    case (Removed, SyncDirectory(ok)) =>
      Some((Nothing, if ok then p.(pc := Ended(Done)) else p.(syncFailed := true, pc := CleanUp(BackendFailure))))
    case _ => None
  }

  /** The catch-all handler: `discard`, then quiet removal, then the error goes on. */
  function CleanUpStep(p: Proc, a: Action): Option<(Effect, Proc)> {
    match (p.pc, a)
    case (CleanUp(e), Discard(n)) =>
      if p.open then
        var x := Drained(p, n);
        Some((x.0, x.1.(open := false, pending := [], pc := Discarded(e))))
      else Some((Nothing, p.(pc := Discarded(e))))
    case (Discarded(e), RemoveTemp(ok)) => Some(Removal(p.Fail(e), ok))
    case _ => None
  }

  /** What one action of a process does, or `None` where the action is not enabled. */
  function Step(output: Path, fs: Fs, used: set<Path>, p: Proc, a: Action): Option<(Effect, Proc)> {
    match p.pc
    case Start => CheckStep(output, fs, p, a)
    case Absent => TempStep(output, fs, used, p, a)
    case Writing => WritingStep(p, a)
    case CleanUp(_) => CleanUpStep(p, a)
    case Discarded(_) => CleanUpStep(p, a)
    case Ended(_) => None
    case _ => CommitStep(output, fs, p, a)
  }

  /** `remove_quietly`: a failure goes unreported. */
  function Removal(p: Proc, ok: bool): (Effect, Proc) {
    if ok then (Unlink(p.temp), p.(unlinked := true)) else (Nothing, p.(failedRemovals := p.failedRemovals + 1))
  }

  // ---------------------------------------------------------------- the system

  datatype System = System(fs: Fs, procs: map<Pid, Proc>, used: set<Path>)

  /** Process `pid` performs `a`; nothing changes when that is not enabled. */
  function Perform(output: Path, s: System, pid: Pid, a: Action): System {
    if pid !in s.procs then s
    else match Step(output, s.fs, s.used, s.procs[pid], a)
      case None => s
      case Some(x) =>
        System(Apply(s.fs, x.0), s.procs[pid := x.1], MoreUsed(s.used, x.0))
  }

  ghost predicate Init(s: System) {
    && (forall x | x in s.fs.names :: s.fs.names[x] in s.fs.data)
    && (forall pid | pid in s.procs :: s.procs[pid] == NewProc(s.procs[pid].job))
    && s.used == {}
  }

  datatype Event = Event(pid: Pid, action: Action)

  /** The state after a sequence of steps, by any processes in any order. */
  function After(output: Path, s: System, events: seq<Event>): System
    decreases |events|
  {
    if events == [] then s
    else After(output, Perform(output, s, events[0].pid, events[0].action), events[1..])
  }

  // ---------------------------------------------------------------- invariants

  ghost predicate Complete(fs: Fs, p: Proc) {
    p.inode in fs.data && fs.data[p.inode] == p.Result() && p.job.outcome == Done
  }

  ghost predicate Blank(p: Proc) {
    !p.created && !p.open && p.link == NotTried && p.pending == [] && !p.noHandle && Untroubled(p)
  }

  /** No removal and no directory sync was attempted yet. */
  ghost predicate Untroubled(p: Proc) {
    !p.unlinked && p.failedRemovals == 0 && !p.syncFailed
  }

  /** How often the process has tried to remove its temporary name by the time it ends. */
  function Removals(p: Proc): nat {
    if p.syncFailed then 2 else 1
  }

  /** A process on its error path: if it bound the output, the directory sync is what failed. */
  ghost predicate Failing(p: Proc, e: ErrorCode) {
    && p.created && !p.noHandle && ErrorOk(p, e)
    && if p.link == Bound then p.syncFailed && p.failedRemovals <= 1 && (p.unlinked <==> p.failedRemovals == 0)
       else Untroubled(p)
  }

  /** What holds of one process at its program counter. */
  ghost predicate PhaseOk(fs: Fs, p: Proc) {
    match p.pc
    case Start => Blank(p) && p.attempts == 0
    case Absent => Blank(p) && p.attempts < MAX_ATTEMPTS
    case Writing =>
      && p.created && p.open && p.link == NotTried && !p.noHandle && Untroubled(p)
      && p.inode in fs.data && fs.data[p.inode] + p.pending + Concat(p.todo) == p.Result()
    case Flushed =>
      && p.created && p.open && p.pending == [] && p.link == NotTried && !p.noHandle && Untroubled(p) && Complete(fs, p)
    case Closed => p.created && !p.open && p.link == NotTried && !p.noHandle && Untroubled(p) && Complete(fs, p)
    case Linked => p.created && !p.open && p.link == Bound && !p.noHandle && Untroubled(p)
    case Removed =>
      && p.created && !p.open && p.link == Bound && !p.noHandle && !p.syncFailed
      && p.failedRemovals <= 1 && (p.unlinked <==> p.failedRemovals == 0)
    case CleanUp(e) => Failing(p, e)
    case Discarded(e) => Failing(p, e) && !p.open
    case Ended(outcome) =>
      && !p.open && (p.syncFailed <==> outcome.Failed? && p.link == Bound)
      && (outcome == Done ==> p.created && p.link == Bound)
      && (outcome.Failed? && p.created ==> ErrorOk(p, outcome.error))
      && (p.created && !p.noHandle ==>
            (p.unlinked <==> p.failedRemovals < Removals(p)) && p.failedRemovals <= Removals(p))
      && (!p.created ==> p.link == NotTried && !p.noHandle)
      && (p.noHandle ==> p.link == NotTried && Untroubled(p))
  }

  /** The error a process reports, given how its link went. */
  ghost predicate ErrorOk(p: Proc, e: ErrorCode) {
    && (p.link == Exists ==> e == InvalidInput)
    && (p.link == OtherError ==> e == BackendFailure)
    && (p.link == Bound ==> e == BackendFailure && !p.open)
    && (p.link == NotTried ==> e == BackendFailure || p.job.outcome == Failed(e))
  }

  /** A process and the filesystem: its inode is its own, and its temporary name is bound to it until removed. */
  ghost predicate OwnsOk(output: Path, s0: Fs, fs: Fs, used: set<Path>, p: Proc) {
    p.created ==>
      && p.inode in fs.data && p.inode !in s0.data
      && p.temp in used && p.temp != output
      && (forall x | x in fs.names && fs.names[x] == p.inode :: x == p.temp || (x == output && p.link == Bound))
      && (p.temp in fs.names <==> !p.unlinked)
      && (p.temp in fs.names ==> fs.names[p.temp] == p.inode)
      && (p.link == Bound ==> output in fs.names && fs.names[output] == p.inode && !p.open && Complete(fs, p))
      && (p.link == Exists ==> output in fs.names)
      && (p.noHandle ==> p.pc.Ended? && !p.unlinked)
  }

  ghost predicate ProcOk(output: Path, s0: Fs, fs: Fs, used: set<Path>, p: Proc) {
    PhaseOk(fs, p) && OwnsOk(output, s0, fs, used, p)
  }

  ghost predicate Apart(p: Proc, q: Proc) {
    p.created && q.created ==> p.inode != q.inode && p.temp != q.temp
  }

  /** The files that were there before keep their contents, and the output name is accounted for. */
  ghost predicate FilesOk(output: Path, s0: Fs, s: System) {
    && (forall x | x in s.fs.names :: s.fs.names[x] in s.fs.data)
    && (forall i | i in s0.data :: i in s.fs.data && s.fs.data[i] == s0.data[i])
    && (output in s0.names ==>
          output in s.fs.names && s.fs.names[output] == s0.names[output] && s0.names[output] in s0.data)
    && (output in s.fs.names && output !in s0.names ==>
          exists pid :: pid in s.procs && s.procs[pid].created && s.procs[pid].link == Bound)
  }

  ghost predicate SystemOk(output: Path, s0: Fs, s: System) {
    && FilesOk(output, s0, s)
    && (forall pid | pid in s.procs :: ProcOk(output, s0, s.fs, s.used, s.procs[pid]))
    && (forall pid, qid | pid in s.procs && qid in s.procs && pid != qid :: Apart(s.procs[pid], s.procs[qid]))
  }

  /** What a step of `p` may do to the filesystem. */
  ghost predicate Allowed(output: Path, fs: Fs, used: set<Path>, p: Proc, e: Effect) {
    match e
    case Nothing => true
    case Create(path, inode) => path !in fs.names && path !in used && path != output && inode !in fs.data && !p.created
    case Append(inode, _) => p.created && p.open && inode == p.inode
    case Link(from, to) => p.created && from == p.temp && from in fs.names && to == output && output !in fs.names
    case Unlink(path) => p.created && path == p.temp
  }

  ghost predicate FsOk(s0: Fs, fs: Fs) {
    && (forall x | x in fs.names :: fs.names[x] in fs.data)
    && (forall i | i in s0.data :: i in fs.data)
  }

  /** What an enabled step of a process does: only what is allowed, keeping its identity and its invariant. */
  ghost predicate Keeps(output: Path, s0: Fs, fs: Fs, used: set<Path>, p: Proc, e: Effect, q: Proc) {
    && Allowed(output, fs, used, p, e)
    && ProcOk(output, s0, Apply(fs, e), MoreUsed(used, e), q)
    && q.job == p.job
    && (p.created ==> q.created && q.inode == p.inode && q.temp == p.temp)
    && (q.created && !p.created ==> e == Create(q.temp, q.inode))
    && (e.Link? ==> q.link == Bound) && (p.created && p.link == Bound ==> q.link == Bound)
  }

  lemma {:induction false} CheckStepKeeps(output: Path, s0: Fs, fs: Fs, used: set<Path>, p: Proc, a: Action)
    requires ProcOk(output, s0, fs, used, p) && FsOk(s0, fs)
    requires p.pc == Start && CheckStep(output, fs, p, a).Some?
    ensures var (e, q) := CheckStep(output, fs, p, a).value;
            Keeps(output, s0, fs, used, p, e, q)
  {
  }

  lemma {:induction false} TempStepKeeps(output: Path, s0: Fs, fs: Fs, used: set<Path>, p: Proc, a: Action)
    requires ProcOk(output, s0, fs, used, p) && FsOk(s0, fs)
    requires p.pc == Absent && TempStep(output, fs, used, p, a).Some?
    ensures var (e, q) := TempStep(output, fs, used, p, a).value;
            Keeps(output, s0, fs, used, p, e, q)
  {
    hide TempName;
    TempNameDiffers(output, a);
    var (e, q) := TempStep(output, fs, used, p, a).value;
    if e.Create? && a.TryTemp? {
      assert Apply(fs, e).data[q.inode] + q.pending + Concat(q.todo) == Concat(q.job.writes);
    }
  }

  lemma {:induction false} TempNameDiffers(output: Path, a: Action)
    ensures a.TryTemp? || a.TryTempNoHandle? ==> TempName(output, a.token) != output
  {
  }

  lemma {:induction false} WritingStepKeeps(output: Path, s0: Fs, fs: Fs, used: set<Path>, p: Proc, a: Action)
    requires ProcOk(output, s0, fs, used, p) && FsOk(s0, fs)
    requires p.pc == Writing && WritingStep(p, a).Some?
    ensures var (e, q) := WritingStep(p, a).value;
            Keeps(output, s0, fs, used, p, e, q)
  {
    hide Concat;
    var (e, q) := WritingStep(p, a).value;
    var d := fs.data[p.inode];
    match a {
      case WriteNext =>
        ConcatFront(p.todo);
        assert d + q.pending + Concat(q.todo) == d + p.pending + Concat(p.todo);
      case Drain(n) =>
        DrainKeeps(d, p.pending, Concat(p.todo), Min(n, |p.pending|));
      case Flush =>
        DrainKeeps(d, p.pending, Concat(p.todo), |p.pending|);
        ConcatFront(p.todo);
        assert q.pending == [];
      case _ =>
    }
  }

  lemma {:induction false} CommitStepKeeps(output: Path, s0: Fs, fs: Fs, used: set<Path>, p: Proc, a: Action)
    requires ProcOk(output, s0, fs, used, p) && FsOk(s0, fs)
    requires p.pc == Flushed || p.pc == Closed || p.pc == Linked || p.pc == Removed
    requires CommitStep(output, fs, p, a).Some?
    ensures var (e, q) := CommitStep(output, fs, p, a).value;
            Keeps(output, s0, fs, used, p, e, q)
  {
    hide Concat;
  }

  lemma {:induction false} CleanUpStepKeeps(output: Path, s0: Fs, fs: Fs, used: set<Path>, p: Proc, a: Action)
    requires ProcOk(output, s0, fs, used, p) && FsOk(s0, fs)
    requires (p.pc.CleanUp? || p.pc.Discarded?) && CleanUpStep(p, a).Some?
    ensures var (e, q) := CleanUpStep(p, a).value;
            Keeps(output, s0, fs, used, p, e, q)
  {
    hide Concat;
  }

  lemma {:induction false} StepKeeps(output: Path, s0: Fs, fs: Fs, used: set<Path>, p: Proc, a: Action)
    requires ProcOk(output, s0, fs, used, p) && FsOk(s0, fs) && Step(output, fs, used, p, a).Some?
    ensures var (e, q) := Step(output, fs, used, p, a).value;
            Keeps(output, s0, fs, used, p, e, q)
  {
    hide CheckStep, TempStep, WritingStep, CommitStep, CleanUpStep, ProcOk, Keeps;
    match p.pc
    case Start => CheckStepKeeps(output, s0, fs, used, p, a);
    case Absent => TempStepKeeps(output, s0, fs, used, p, a);
    case Writing => WritingStepKeeps(output, s0, fs, used, p, a);
    case CleanUp(_) => CleanUpStepKeeps(output, s0, fs, used, p, a);
    case Discarded(_) => CleanUpStepKeeps(output, s0, fs, used, p, a);
    case Ended(_) =>
    case _ => CommitStepKeeps(output, s0, fs, used, p, a);
  }

  lemma {:induction false} DrainKeeps(d: Bytes, pending: Bytes, rest: Bytes, k: nat)
    requires k <= |pending|
    ensures d + pending[..k] + pending[k..] + rest == d + pending + rest
  {
    assert pending[..k] + pending[k..] == pending;
    assert d + pending[..k] + pending[k..] == d + pending;
  }

  /** A step of one process leaves every other process in order, and apart from it. */
  lemma {:induction false} StepKeepsOther(
      output: Path, s0: Fs, fs: Fs, used: set<Path>, p: Proc, e: Effect, q: Proc, r: Proc)
    requires ProcOk(output, s0, fs, used, p) && Keeps(output, s0, fs, used, p, e, q)
    requires ProcOk(output, s0, fs, used, r) && Apart(p, r)
    ensures ProcOk(output, s0, Apply(fs, e), MoreUsed(used, e), r) && Apart(q, r) && Apart(r, q)
  {
    hide Concat;
  }

  /** What a step preserves about the output: once bound it stays bound to the same inode with the same bytes. */
  ghost predicate OutputKept(output: Path, fs: Fs, later: Fs) {
    output in fs.names && fs.names[output] in fs.data ==>
      && output in later.names && later.names[output] == fs.names[output]
      && fs.names[output] in later.data && later.data[fs.names[output]] == fs.data[fs.names[output]]
  }

  lemma {:induction false} StepKeepsFiles(output: Path, s0: Fs, s: System, pid: Pid, e: Effect, q: Proc)
    requires FilesOk(output, s0, s) && pid in s.procs && OwnsOk(output, s0, s.fs, s.used, s.procs[pid])
    requires Keeps(output, s0, s.fs, s.used, s.procs[pid], e, q)
    ensures FilesOk(output, s0, System(Apply(s.fs, e), s.procs[pid := q], MoreUsed(s.used, e)))
  {
    hide PhaseOk, Complete;
    var t := System(Apply(s.fs, e), s.procs[pid := q], MoreUsed(s.used, e));
    if output in t.fs.names && output !in s0.names {
      if e.Link? {
        assert t.procs[pid].created && t.procs[pid].link == Bound;
      } else {
        var wid :| wid in s.procs && s.procs[wid].created && s.procs[wid].link == Bound;
        assert t.procs[wid].created && t.procs[wid].link == Bound;
      }
    }
  }

  /** A step leaves a bound output alone: its inode belongs to nobody who still writes. */
  lemma {:induction false} StepKeepsOutput(output: Path, s0: Fs, s: System, pid: Pid, e: Effect)
    requires SystemOk(output, s0, s) && pid in s.procs && Allowed(output, s.fs, s.used, s.procs[pid], e)
    ensures OutputKept(output, s.fs, Apply(s.fs, e))
  {
    hide PhaseOk, Complete;
    var p := s.procs[pid];
    assert ProcOk(output, s0, s.fs, s.used, p);
    if e.Append? && output in s.fs.names && output !in s0.names {
      var wid :| wid in s.procs && s.procs[wid].created && s.procs[wid].link == Bound;
      assert ProcOk(output, s0, s.fs, s.used, s.procs[wid]);
      assert wid != pid ==> Apart(p, s.procs[wid]);
    }
  }

  lemma {:induction false} PerformKeeps(output: Path, s0: Fs, s: System, pid: Pid, a: Action)
    requires SystemOk(output, s0, s)
    ensures SystemOk(output, s0, Perform(output, s, pid, a))
    ensures OutputKept(output, s.fs, Perform(output, s, pid, a).fs)
  {
    hide Step, PhaseOk, OwnsOk, Allowed, Apply, Apart;
    if pid in s.procs && Step(output, s.fs, s.used, s.procs[pid], a).Some? {
      var t := Perform(output, s, pid, a);
      var p := s.procs[pid];
      assert ProcOk(output, s0, s.fs, s.used, p);
      var (e, q) := Step(output, s.fs, s.used, p, a).value;
      StepKeeps(output, s0, s.fs, s.used, p, a);
      StepKeepsFiles(output, s0, s, pid, e, q);
      StepKeepsOutput(output, s0, s, pid, e);
      forall rid | rid in t.procs && rid != pid
        ensures ProcOk(output, s0, t.fs, t.used, t.procs[rid]) && Apart(q, t.procs[rid]) && Apart(t.procs[rid], q)
      {
        var r := s.procs[rid];
        assert ProcOk(output, s0, s.fs, s.used, r) && Apart(p, r);
        StepKeepsOther(output, s0, s.fs, s.used, p, e, q, r);
      }
    }
  }

  // ---------------------------------------------------------------- theorems over whole runs

  /** The invariant holds after any steps of any processes in any order. */
  lemma {:induction false} RunKeeps(output: Path, s0: Fs, s: System, events: seq<Event>)
    requires SystemOk(output, s0, s)
    ensures SystemOk(output, s0, After(output, s, events))
    ensures OutputKept(output, s.fs, After(output, s, events).fs)
    decreases |events|
  {
    hide SystemOk, Perform;
    if events != [] {
      var t := Perform(output, s, events[0].pid, events[0].action);
      PerformKeeps(output, s0, s, events[0].pid, events[0].action);
      RunKeeps(output, s0, t, events[1..]);
    }
  }

  lemma {:induction false} InitIsOk(output: Path, s: System)
    requires Init(s)
    ensures SystemOk(output, s.fs, s)
  {
  }

  lemma {:induction false} AfterSplit(output: Path, s: System, a: seq<Event>, b: seq<Event>)
    ensures After(output, s, a + b) == After(output, After(output, s, a), b)
    decreases |a|
  {
    if a == [] {
      assert a + b == b;
    } else {
      assert (a + b)[1..] == a[1..] + b;
      AfterSplit(output, Perform(output, s, a[0].pid, a[0].action), a[1..], b);
    }
  }

  /** The output name is unbound, as it was at the start, or holds one process's complete result. */
  ghost predicate OutputSafe(output: Path, s0: Fs, s: System) {
    output in s.fs.names ==>
      var i := s.fs.names[output];
      && i in s.fs.data
      && if output in s0.names then i == s0.names[output] && i in s0.data && s.fs.data[i] == s0.data[i]
         else exists pid :: Won(s, pid) && i == s.procs[pid].inode && Complete(s.fs, s.procs[pid])
  }

  ghost predicate Won(s: System, pid: Pid) {
    pid in s.procs && s.procs[pid].link == Bound
  }

  /**
   * Safety of the commit protocol over every run of any number of processes: at every moment the
   * output is safe; once it is bound it is never rebound and its bytes never change; and at most
   * one process wins the link, none if the output existed at the start.
   */
  lemma {:induction false} CommitSafety(output: Path, s: System, earlier: seq<Event>, later: seq<Event>)
    requires Init(s)
    ensures var mid := After(output, s, earlier);
            var end := After(output, s, earlier + later);
            && OutputSafe(output, s.fs, end)
            && (output in mid.fs.names ==>
                  && output in end.fs.names && end.fs.names[output] == mid.fs.names[output]
                  && mid.fs.names[output] in mid.fs.data && mid.fs.names[output] in end.fs.data
                  && end.fs.data[mid.fs.names[output]] == mid.fs.data[mid.fs.names[output]])
            && (forall pid, qid | Won(end, pid) && Won(end, qid) :: pid == qid)
            && (output in s.fs.names ==> forall pid :: !Won(end, pid))
  {
    hide PhaseOk;
    var s0 := s.fs;
    InitIsOk(output, s);
    RunKeeps(output, s0, s, earlier);
    var mid := After(output, s, earlier);
    RunKeeps(output, s0, mid, later);
    AfterSplit(output, s, earlier, later);
    InvariantIsSafe(output, s0, After(output, mid, later));
  }

  lemma {:induction false} InvariantIsSafe(output: Path, s0: Fs, s: System)
    requires SystemOk(output, s0, s)
    ensures OutputSafe(output, s0, s)
    ensures forall pid, qid | Won(s, pid) && Won(s, qid) :: pid == qid
    ensures output in s0.names ==> forall pid :: !Won(s, pid)
  {
    forall pid | Won(s, pid)
      ensures s.procs[pid].created && output in s.fs.names && s.fs.names[output] == s.procs[pid].inode
              && Complete(s.fs, s.procs[pid])
    {
      assert ProcOk(output, s0, s.fs, s.used, s.procs[pid]);
    }
    forall pid, qid | Won(s, pid) && Won(s, qid)
      ensures pid == qid
    {
      assert pid != qid ==> Apart(s.procs[pid], s.procs[qid]);
    }
    if output in s.fs.names && output !in s0.names {
      var pid :| pid in s.procs && s.procs[pid].created && s.procs[pid].link == Bound;
      assert Won(s, pid);
    }
  }

  /**
   * How a run of one process ends, in every interleaving. Success: the output holds its complete
   * result. A run fails with the output bound exactly if the directory sync failed, and then the
   * complete result is in place. A process that found the output bound at its link reports
   * `InvalidInput`. The temporary name stays behind exactly if no handle could be made for the
   * file or every removal failed: the only one, or both of them after a failed sync.
   */
  lemma {:induction false} CommitOutcome(output: Path, s: System, events: seq<Event>, pid: Pid)
    requires Init(s) && pid in After(output, s, events).procs && After(output, s, events).procs[pid].pc.Ended?
    ensures var end := After(output, s, events);
            var p := end.procs[pid];
            && (p.pc.outcome == Done ==> p.link == Bound)
            && (p.pc.outcome.Failed? && p.link == Bound <==> p.syncFailed)
            && (p.link == Bound ==>
                  && output in end.fs.names && end.fs.names[output] == p.inode && Complete(end.fs, p)
                  && (p.pc.outcome == Done || p.pc.outcome == Failed(BackendFailure)))
            && (p.link != Bound && p.created && output in end.fs.names ==> end.fs.names[output] != p.inode)
            && (p.link == Exists ==> p.pc.outcome == Failed(InvalidInput) && output in end.fs.names)
            && (p.link == OtherError ==> p.pc.outcome == Failed(BackendFailure))
            && (p.created ==> (p.temp in end.fs.names <==> p.noHandle || p.failedRemovals == Removals(p)))
            && (p.noHandle ==> p.created && p.link == NotTried && p.failedRemovals == 0)
  {
    InitIsOk(output, s);
    RunKeeps(output, s.fs, s, events);
    var end := After(output, s, events);
    assert ProcOk(output, s.fs, end.fs, end.used, end.procs[pid]);
  }

  /** A process that reaches the link after the output was bound loses, and says so unless the link failed otherwise. */
  lemma {:induction false} LateLinkLoses(output: Path, s: System, events: seq<Event>, pid: Pid, a: Action)
    requires Init(s)
    requires var now := After(output, s, events);
             pid in now.procs && now.procs[pid].pc == Closed && output in now.fs.names
    requires a == LinkOutput || a == LinkFails
    ensures var now := After(output, s, events);
            var next := Perform(output, now, pid, a);
            && next.fs == now.fs
            && next.procs[pid].pc == CleanUp(if a == LinkOutput then InvalidInput else BackendFailure)
  {
    hide Concat, CheckStep, TempStep, WritingStep, CleanUpStep;
    InitIsOk(output, s);
    RunKeeps(output, s.fs, s, events);
    var now := After(output, s, events);
    assert ProcOk(output, s.fs, now.fs, now.used, now.procs[pid]);
  }

  /** A process that has ended stays as it is. */
  lemma {:induction false} EndedStays(output: Path, s: System, events: seq<Event>, pid: Pid)
    requires pid in s.procs && s.procs[pid].pc.Ended?
    ensures var end := After(output, s, events);
            pid in end.procs && end.procs[pid] == s.procs[pid]
    decreases |events|
  {
    hide CheckStep, TempStep, WritingStep, CommitStep, CleanUpStep, Apply;
    if events != [] {
      EndedStays(output, Perform(output, s, events[0].pid, events[0].action), events[1..], pid);
    }
  }

  /**
   * A process whose check finds the output bound reports `InvalidInput` and nothing else, whatever
   * the others do from then on: it changes no file, and never creates one.
   */
  lemma {:induction false} BoundOutputIsRefused(
      output: Path, s: System, events: seq<Event>, pid: Pid, later: seq<Event>)
    requires Init(s)
    requires var now := After(output, s, events);
             pid in now.procs && now.procs[pid].pc == Start && output in now.fs.names
    ensures var now := After(output, s, events);
            var next := Perform(output, now, pid, CheckOutput);
            var end := After(output, next, later);
            && next.fs == now.fs && next.used == now.used
            && pid in end.procs && end.procs[pid].pc == Ended(Failed(InvalidInput))
            && !end.procs[pid].created && !end.procs[pid].open
  {
    hide Concat, TempStep, WritingStep, CommitStep, CleanUpStep;
    InitIsOk(output, s);
    RunKeeps(output, s.fs, s, events);
    var now := After(output, s, events);
    assert ProcOk(output, s.fs, now.fs, now.used, now.procs[pid]);
    EndedStays(output, Perform(output, now, pid, CheckOutput), later, pid);
  }

  // ---------------------------------------------------------------- temporary names can stay behind

  /** A system of one process. */
  function Alone(fs: Fs, used: set<Path>, p: Proc): System {
    System(fs, map[0 := p], used)
  }

  lemma {:induction false} AloneStep(
      output: Path, fs: Fs, used: set<Path>, p: Proc, a: Action, e: Effect, q: Proc, rest: seq<Event>)
    requires Step(output, fs, used, p, a) == Some((e, q))
    ensures After(output, Alone(fs, used, p), [Event(0, a)] + rest)
            == After(output, Alone(Apply(fs, e), MoreUsed(used, e), q), rest)
  {
    hide Step, Apply;
    var events := [Event(0, a)] + rest;
    assert events[1..] == rest;
    assert map[0 := p][0 := q] == map[0 := q];
  }

  lemma {:induction false} AfterNothing(output: Path, s: System)
    ensures After(output, s, []) == s
  {
  }

  /** A process alone on an empty filesystem, before its first step. */
  function FreshStart(job: Run): System {
    Alone(Fs(map[], map[]), {}, NewProc(job))
  }

  /** A process whose complete temporary file is closed, and the filesystem then. */
  function ClosedProc(name: Path, job: Run): Proc {
    NewProc(job).(pc := Closed, created := true, temp := name)
  }

  function OneFile(name: Path, content: Bytes): Fs {
    Fs(map[name := 0], map[0 := content])
  }

  /** The steps that write all of a payload, before any further steps. */
  lemma {:induction false} WritePayload(output: Path, fs: Fs, used: set<Path>, p: Proc, rest: seq<Event>)
    returns (events: seq<Event>)
    requires p.pc == Writing
    ensures After(output, Alone(fs, used, p), events)
            == After(output, Alone(fs, used, p.(pending := p.pending + Concat(p.todo), todo := [])), rest)
    decreases |p.todo|
  {
    hide After, Concat, CheckStep, TempStep, CommitStep, CleanUpStep;
    ConcatFront(p.todo);
    if p.todo == [] {
      assert p.pending + [] == p.pending;
      events := rest;
    } else {
      var q := p.(pending := p.pending + p.todo[0], todo := p.todo[1..]);
      var others := WritePayload(output, fs, used, q, rest);
      assert q.pending + Concat(q.todo) == p.pending + Concat(p.todo);
      AloneStep(output, fs, used, p, WriteNext, Nothing, q, others);
      events := [Event(0, WriteNext)] + others;
    }
  }

  lemma {:induction false} FlushAndClose(output: Path, fs: Fs, used: set<Path>, p: Proc, rest: seq<Event>)
    returns (events: seq<Event>)
    requires p.pc == Writing && p.todo == [] && p.job.outcome == Done
    ensures After(output, Alone(fs, used, p), events)
            == After(output, Alone(Apply(fs, Append(p.inode, p.pending)), used,
                                   p.(open := false, pending := [], pc := Closed)), rest)
  {
    hide After, Apply, Concat, CheckStep, TempStep, CleanUpStep;
    var q := p.(pending := [], pc := Flushed);
    var flushed := Append(p.inode, p.pending);
    assert p.pending[..|p.pending|] == p.pending && p.pending[|p.pending|..] == [];
    assert Drained(p, |p.pending|) == (flushed, p.(pending := []));
    AloneStep(output, Apply(fs, flushed), used, q, Close, Nothing, q.(open := false, pc := Closed), rest);
    ApplyNothing(Apply(fs, flushed));
    var all := [Event(0, Close)] + rest;
    AloneStep(output, fs, used, p, Flush, flushed, q, all);
    events := [Event(0, Flush)] + all;
  }

  lemma {:induction false} ApplyNothing(fs: Fs)
    ensures Apply(fs, Nothing) == fs
  {
  }

  /** The steps up to the closed, complete temporary file, before any further steps. */
  lemma {:induction false} UpToClosed(output: Path, token: Token, job: Run, rest: seq<Event>)
    returns (events: seq<Event>)
    requires job.outcome == Done
    ensures var name := TempName(output, token);
            After(output, FreshStart(job), events)
            == After(output, Alone(OneFile(name, Concat(job.writes)), {name}, ClosedProc(name, job)), rest)
  {
    hide TempName, Concat, After, CommitStep, CleanUpStep;
    var name := TempName(output, token);
    var p := NewProc(job).(pc := Absent);
    var q := p.(created := true, temp := name, open := true, todo := job.writes, pc := Writing);
    var w := q.(pending := [] + Concat(job.writes), todo := []);
    assert Apply(Fs(map[], map[]), Create(name, 0)) == OneFile(name, []) && MoreUsed({}, Create(name, 0)) == {name};
    assert [] + Concat(job.writes) == Concat(job.writes);
    assert Apply(OneFile(name, []), Append(0, w.pending)) == OneFile(name, Concat(job.writes));
    var closing := FlushAndClose(output, OneFile(name, []), {name}, w, rest);
    var writing := WritePayload(output, OneFile(name, []), {name}, q, closing);
    AloneStep(output, Fs(map[], map[]), {}, p, TryTemp(token, 0), Create(name, 0), q, writing);
    var all := [Event(0, TryTemp(token, 0))] + writing;
    AloneStep(output, Fs(map[], map[]), {}, NewProc(job), CheckOutput, Nothing, p, all);
    events := [Event(0, CheckOutput)] + all;
  }

  /** The same process after its link and a removal that failed, and the filesystem then. */
  function RemovedProc(name: Path, job: Run): Proc {
    ClosedProc(name, job).(link := Bound, failedRemovals := 1, pc := Removed)
  }

  function OneFileLinked(name: Path, output: Path, content: Bytes): Fs {
    Fs(map[name := 0, output := 0], map[0 := content])
  }

  lemma {:induction false} UpToRemoved(output: Path, token: Token, job: Run, rest: seq<Event>)
    returns (events: seq<Event>)
    requires job.outcome == Done
    ensures var name := TempName(output, token);
            After(output, FreshStart(job), events)
            == After(output, Alone(OneFileLinked(name, output, Concat(job.writes)), {name},
                                   RemovedProc(name, job)), rest)
  {
    hide TempName, After, Concat, FreshStart, CheckStep, TempStep, WritingStep, CleanUpStep;
    TempNameDiffers(output, TryTemp(token, 0));
    var name := TempName(output, token);
    var file, both := OneFile(name, Concat(job.writes)), OneFileLinked(name, output, Concat(job.writes));
    var linked := ClosedProc(name, job).(link := Bound, pc := Linked);
    assert Apply(file, Link(name, output)) == both;
    AloneStep(output, both, {name}, linked, RemoveTemp(false), Nothing, RemovedProc(name, job), rest);
    var all := [Event(0, RemoveTemp(false))] + rest;
    AloneStep(output, file, {name}, ClosedProc(name, job), LinkOutput, Link(name, output), linked, all);
    events := UpToClosed(output, token, job, [Event(0, LinkOutput)] + all);
  }

  /**
   * Every call that can succeed can do so and still leave its temporary name bound: the quiet
   * removal after the link may fail.
   */
  lemma {:induction false} SuccessCanLeaveTempName(output: Path, token: Token, job: Run) returns (events: seq<Event>)
    requires job.outcome == Done
    ensures var end := After(output, FreshStart(job), events);
            && 0 in end.procs && end.procs[0].pc == Ended(Done) && end.procs[0].job == job
            && TempName(output, token) in end.fs.names && HoldsResult(output, end.fs, job)
  {
    hide TempName, After, Concat, FreshStart, CheckStep, TempStep, WritingStep, CleanUpStep;
    var name := TempName(output, token);
    var fs, p := OneFileLinked(name, output, Concat(job.writes)), RemovedProc(name, job);
    AfterNothing(output, Alone(fs, {name}, p.(pc := Ended(Done))));
    AloneStep(output, fs, {name}, p, SyncDirectory(true), Nothing, p.(pc := Ended(Done)), []);
    events := UpToRemoved(output, token, job, [Event(0, SyncDirectory(true))] + []);
  }

  /** The output name is bound to the complete result of a job. */
  predicate HoldsResult(output: Path, fs: Fs, job: Run) {
    output in fs.names && fs.names[output] in fs.data && fs.data[fs.names[output]] == Concat(job.writes)
  }

  /**
   * Every call that can succeed can also fail although its output is bound and complete: the
   * directory sync after the link may fail.
   */
  lemma {:induction false} FailureCanBindOutput(output: Path, token: Token, job: Run) returns (events: seq<Event>)
    requires job.outcome == Done
    ensures var end := After(output, FreshStart(job), events);
            && 0 in end.procs && end.procs[0].pc == Ended(Failed(BackendFailure)) && end.procs[0].job == job
            && HoldsResult(output, end.fs, job) && end.fs.names[output] == end.procs[0].inode
  {
    hide TempName, After, Concat, FreshStart, CheckStep, TempStep, WritingStep, CleanUpStep;
    TempNameDiffers(output, TryTemp(token, 0));
    var name := TempName(output, token);
    var fs, p := OneFileLinked(name, output, Concat(job.writes)), RemovedProc(name, job);
    var failing := p.(syncFailed := true, pc := CleanUp(BackendFailure));
    var rest := CleanUpAfterSync(output, fs, {name}, failing);
    AloneStep(output, fs, {name}, p, SyncDirectory(false), Nothing, failing, rest);
    events := UpToRemoved(output, token, job, [Event(0, SyncDirectory(false))] + rest);
  }

  lemma {:induction false} CleanUpAfterSync(output: Path, fs: Fs, used: set<Path>, p: Proc) returns (events: seq<Event>)
    requires p.pc == CleanUp(BackendFailure) && !p.open && p.temp != output && output in fs.names
    ensures var end := After(output, Alone(fs, used, p), events);
            && 0 in end.procs && end.procs[0].pc == Ended(Failed(BackendFailure)) && end.procs[0].inode == p.inode
            && end.procs[0].job == p.job && output in end.fs.names && end.fs.names[output] == fs.names[output]
            && end.fs.data == fs.data
  {
    hide After, Concat, CheckStep, TempStep, WritingStep, CommitStep;
    var d := p.(pc := Discarded(BackendFailure));
    var e := d.(unlinked := true).Fail(BackendFailure);
    AfterNothing(output, Alone(Apply(fs, Unlink(p.temp)), used, e));
    AloneStep(output, fs, used, d, RemoveTemp(true), Unlink(p.temp), e, []);
    var last := [Event(0, RemoveTemp(true))] + [];
    AloneStep(output, fs, used, p, Discard(0), Nothing, d, last);
    events := [Event(0, Discard(0))] + last;
  }

  /** A call can fail before it wrote anything and leave its temporary name bound, although no removal failed. */
  lemma {:induction false} FailureCanLeaveTempName(output: Path, token: Token, job: Run) returns (events: seq<Event>)
    ensures var end := After(output, FreshStart(job), events);
            && 0 in end.procs && end.procs[0].pc == Ended(Failed(BackendFailure)) && end.procs[0].failedRemovals == 0
            && TempName(output, token) in end.fs.names
  {
    hide TempName, Concat;
    var name := TempName(output, token);
    var p := NewProc(job).(pc := Absent);
    var q := p.(created := true, temp := name, noHandle := true).Fail(BackendFailure);
    AloneStep(output, Fs(map[], map[]), {}, p, TryTempNoHandle(token, 0), Create(name, 0), q, []);
    var rest := [Event(0, TryTempNoHandle(token, 0))] + [];
    AloneStep(output, Fs(map[], map[]), {}, NewProc(job), CheckOutput, Nothing, p, rest);
    events := [Event(0, CheckOutput)] + rest;
  }
}
