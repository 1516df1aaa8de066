/**
 The disk driver's handshake (kern/dev/lamebus/lhd.c): lhd_io, lhd_irq and
 lhd_iodone as a step system. Any number of threads do I/O; the disk finishes an
 operation whenever it likes, and its interrupt handler runs one instance at a
 time. The two semaphores are atomic. Registers, the on-card buffer and the
 saved result carry the sector and the thread they belong to.
 */
module Disk {
  import opened Common
  import opened Words

  const SECTSIZE := 512

  type Tid = nat

  /** Result codes of the hardware, and the error numbers they become. */
  datatype Code = LhdOk | LhdInvSect | LhdMedia
  datatype Errno = NoError | EINVAL | EIO

  function CodeToErrno(c: Code): Errno {
    match c
    case LhdOk => NoError
    case LhdInvSect => EINVAL
    case LhdMedia => EIO
  }

  /** Whose operation, on which sector. */
  datatype Op = Op(owner: Tid, sector: nat, write: bool)

  datatype Device = DevIdle | Working(op: Op) | Finished(op: Op, code: Code)
  datatype Handler = NotRunning | Seen(op: Op, code: Code) | Saved(op: Op)

  /** The rest of a request: sectors sector..end. */
  datatype Job = Job(sector: nat, end: nat, write: bool)

  datatype Pc =
    | Out
    | WantClear(job: Job)               // top of the loop, before P(lh_clear)
    | HasClear(job: Job)                // past P(lh_clear)
    | Buffered(job: Job)                // data to be written are in the on-card buffer
    | SectSet(job: Job)                 // sector register written
    | Started(job: Job)                 // status register written; before P(lh_done)
    | Completed(job: Job)               // past P(lh_done)
    | GotResult(job: Job, err: Errno)   // has the result, and the data if it was a read; before V(lh_clear)
    | Abort(job: Job)                   // the data could not be fetched; before V(lh_clear)

  /** Has the device to itself. */
  predicate Active(pc: Pc) { !pc.Out? && !pc.WantClear? }

  datatype State = State(nblocks: nat, clear: nat, done: nat, sect: nat, dev: Device, handler: Handler,
                         result: Errno, resultOf: Op, buffer: Op, pcs: map<Tid, Pc>)

  function PcOf(s: State, t: Tid): Pc { if t in s.pcs then s.pcs[t] else Out }
  function At(s: State, t: Tid, pc: Pc): State { s.(pcs := s.pcs[t := pc]) }

  function OpOf(t: Tid, job: Job): Op { Op(t, job.sector % W32, job.write) }

  /** What lhd_io makes of a byte offset and of an amount, in 32 bits. */
  function FirstSector(offset: nat): nat { offset / SECTSIZE % W32 }
  function SectorCount(resid: nat): nat { resid / SECTSIZE % W32 }

  /** The checks at the head of lhd_io; the sum is one of 32-bit words. */
  predicate Accepted(nblocks: nat, offset: nat, resid: nat) {
    && offset % SECTSIZE == 0 && resid % SECTSIZE == 0
    && (FirstSector(offset) + SectorCount(resid)) % W32 <= nblocks
  }

  /** Where the loop goes after one sector. */
  function AfterSector(job: Job, err: Errno): Pc {
    if err != NoError || job.sector + 1 >= job.end then Out else WantClear(job.(sector := job.sector + 1))
  }

  datatype Event =
    | Start(t: Tid, offset: nat, resid: nat, write: bool)   // lhd_io is called and accepts the request
    | Continue(t: Tid)                                      // t takes its next step
    | MoveFails(t: Tid)                                     // uiomove fails
    | DeviceDone(code: Code)                                // the disk finishes
    | Irq                                                   // the handler takes its next step

  function Next(s: State, e: Event): Option<State> {
    match e
    case Start(t, offset, resid, write) =>
      if PcOf(s, t).Out? && Accepted(s.nblocks, offset, resid) then
        var sector, len := FirstSector(offset), SectorCount(resid);
        Some(At(s, t, if len == 0 then Out else WantClear(Job(sector, sector + len, write))))
      else None
    case Continue(t) => Step(s, t)
    case MoveFails(t) =>
      (match PcOf(s, t)
       case HasClear(job) => if job.write then Some(At(s, t, Abort(job))) else None
       case Completed(job) => if s.result == NoError && !job.write then Some(At(s, t, GotResult(job, EIO))) else None
       case _ => None)
    case DeviceDone(code) =>
      (match s.dev
       case Working(op) => Some(s.(dev := Finished(op, code), buffer := if op.write then s.buffer else op))
       case _ => None)
    case Irq =>
      match s.handler
      case NotRunning =>
        (match s.dev
         case Finished(op, code) => Some(s.(dev := DevIdle, handler := Seen(op, code)))
         case _ => Some(s))
      case Seen(op, code) => Some(s.(result := CodeToErrno(code), resultOf := op, handler := Saved(op)))
      case Saved(_) => Some(s.(done := s.done + 1, handler := NotRunning))
  }

  function Step(s: State, t: Tid): Option<State> {
    match PcOf(s, t)
    case Out => None
    case WantClear(job) => if s.clear > 0 then Some(At(s, t, HasClear(job)).(clear := s.clear - 1)) else None
    case HasClear(job) => Some(At(s, t, Buffered(job)).(buffer := if job.write then OpOf(t, job) else s.buffer))
    case Buffered(job) => Some(At(s, t, SectSet(job)).(sect := job.sector % W32))
    case SectSet(job) => Some(At(s, t, Started(job)).(dev := Working(Op(t, s.sect, job.write))))
    case Started(job) => if s.done > 0 then Some(At(s, t, Completed(job)).(done := s.done - 1)) else None
    case Completed(job) => Some(At(s, t, GotResult(job, s.result)))
    case GotResult(job, err) => Some(At(s, t, AfterSector(job, err)).(clear := s.clear + 1))
    case Abort(job) => Some(At(s, t, Out).(clear := s.clear + 1))
  }

  /** config_lhd creates the semaphores with counts 1 and 0. */
  function Init(nblocks: nat, none: Op): State {
    State(nblocks, 1, 0, 0, DevIdle, NotRunning, NoError, none, none, map[])
  }

  function Run(s: State, trace: seq<Event>): Option<State> {
    if trace == [] then Some(s)
    else match Run(s, trace[..|trace| - 1])
      case None => None
      case Some(m) => Next(m, trace[|trace| - 1])
  }

  // ---------------------------------------------------------------- invariant

  ghost function ActiveSet(pcs: map<Tid, Pc>): set<Tid> { set t | t in pcs && Active(pcs[t]) }

  /** Nothing is going on at the device, and no completion is unclaimed. */
  ghost predicate Quiet(s: State) { s.dev.DevIdle? && s.handler.NotRunning? && s.done == 0 }

  /** Exactly one of: the disk is working on op, has finished it, the handler has seen that, has
      saved the result, or has signalled it. */
  ghost predicate Underway(s: State, op: Op) {
    match (s.dev, s.handler)
    case (Working(o), NotRunning) => o == op && s.done == 0 && (op.write ==> s.buffer == op)
    case (Finished(o, _), NotRunning) => o == op && s.done == 0 && s.buffer == op
    case (DevIdle, Seen(o, _)) => o == op && s.done == 0 && s.buffer == op
    case (DevIdle, Saved(o)) => o == op && s.done == 0 && s.buffer == op && s.resultOf == op
    case (DevIdle, NotRunning) => s.done == 1 && s.buffer == op && s.resultOf == op
    case _ => false
  }

  ghost predicate ThreadOk(s: State, t: Tid) {
    match PcOf(s, t)
    case Out => true
    case WantClear(_) => true
    case HasClear(_) => Quiet(s)
    case Abort(_) => Quiet(s)
    case Buffered(job) => Quiet(s) && (job.write ==> s.buffer == OpOf(t, job))
    case SectSet(job) => Quiet(s) && s.sect == job.sector % W32 && (job.write ==> s.buffer == OpOf(t, job))
    case Started(job) => Underway(s, OpOf(t, job))
    case Completed(job) => Quiet(s) && s.resultOf == OpOf(t, job) && s.buffer == OpOf(t, job)
    case GotResult(job, _) => Quiet(s)
  }

  /** The device belongs to at most one thread, and is quiet when it belongs to none. */
  ghost predicate Inv(s: State) {
    && s.clear + |ActiveSet(s.pcs)| == 1
    && (s.clear == 1 ==> Quiet(s))
    && (forall t: Tid :: ThreadOk(s, t))
  }

  lemma MovedSet(pcs: map<Tid, Pc>, t: Tid, pc: Pc)
    ensures ActiveSet(pcs[t := pc]) == if Active(pc) then ActiveSet(pcs) + {t} else ActiveSet(pcs) - {t}
    ensures t in ActiveSet(pcs) <==> Active(if t in pcs then pcs[t] else Out)
  {
  }

  /** Two threads are never both at the device. */
  lemma Exclusive(s: State, t: Tid, u: Tid)
    requires Inv(s) && Active(PcOf(s, t)) && Active(PcOf(s, u))
    ensures t == u && s.clear == 0
  {
    assert t in ActiveSet(s.pcs) && u in ActiveSet(s.pcs);
    if t != u {
      assert {t, u} <= ActiveSet(s.pcs);
      SubsetSize({t, u}, ActiveSet(s.pcs));
    }
  }

  lemma {:induction false} SubsetSize(a: set<Tid>, b: set<Tid>)
    requires a <= b
    ensures |a| <= |b|
  {
    if a != {} {
      var x :| x in a;
      SubsetSize(a - {x}, b - {x});
    }
  }

  /** The count of threads at the device after one thread moved. */
  lemma MovedCount(pcs: map<Tid, Pc>, t: Tid, pc: Pc)
    ensures var was := if t in pcs then pcs[t] else Out;
            |ActiveSet(pcs[t := pc])| == |ActiveSet(pcs)| - Weight(was) + Weight(pc)
  {
    MovedSet(pcs, t, pc);
  }

  function Weight(pc: Pc): nat { if Active(pc) then 1 else 0 }

  lemma NextCount(s: State, e: Event)
    requires Inv(s) && Next(s, e).Some?
    ensures Next(s, e).value.clear + |ActiveSet(Next(s, e).value.pcs)| == 1
  {
    hide ThreadOk, ActiveSet;
    var s' := Next(s, e).value;
    match e {
      case Start(t, _, _, _) => MovedCount(s.pcs, t, PcOf(s', t));
      case Continue(t) => MovedCount(s.pcs, t, PcOf(s', t));
      case MoveFails(t) => MovedCount(s.pcs, t, PcOf(s', t));
      case DeviceDone(_) =>
      case Irq =>
    }
  }

  /** A step of t leaves the other threads' business alone, as none of them is at the device. */
  lemma StepThread(s: State, t: Tid, x: Tid)
    requires Inv(s) && Step(s, t).Some?
    ensures ThreadOk(Step(s, t).value, x)
  {
    assert ThreadOk(s, t) && ThreadOk(s, x);
    if x != t && Active(PcOf(s, x)) {
      if Active(PcOf(s, t)) { Exclusive(s, t, x); } else { Exclusive(s, x, x); }
    }
    if PcOf(s, t).WantClear? { assert Quiet(s); }
  }

  lemma StepQuiet(s: State, t: Tid)
    requires Inv(s) && Step(s, t).Some?
    ensures Step(s, t).value.clear == 1 ==> Quiet(Step(s, t).value)
  {
    assert ThreadOk(s, t);
    if Active(PcOf(s, t)) { Exclusive(s, t, t); }
  }

  lemma NextInv(s: State, e: Event)
    requires Inv(s) && Next(s, e).Some?
    ensures Inv(Next(s, e).value)
  {
    hide ThreadOk, Next, ActiveSet;
    NextCount(s, e);
    if e.Continue? {
      ContinueInv(s, e.t);
    } else {
      OtherInv(s, e);
    }
  }

  lemma ContinueInv(s: State, t: Tid)
    requires Inv(s) && Next(s, Continue(t)).Some?
    requires var s' := Next(s, Continue(t)).value; s'.clear + |ActiveSet(s'.pcs)| == 1
    ensures Inv(Next(s, Continue(t)).value)
  {
    hide ThreadOk, ActiveSet;
    StepQuiet(s, t);
    forall x: Tid ensures ThreadOk(Next(s, Continue(t)).value, x) { StepThread(s, t, x); }
  }

  lemma OtherInv(s: State, e: Event)
    requires Inv(s) && !e.Continue? && Next(s, e).Some?
    requires var s' := Next(s, e).value; s'.clear + |ActiveSet(s'.pcs)| == 1
    ensures Inv(Next(s, e).value)
  {
    hide ActiveSet;
    forall x: Tid ensures ThreadOk(Next(s, e).value, x) { assert ThreadOk(s, x); }
  }

  lemma {:induction false} RunInv(nblocks: nat, none: Op, trace: seq<Event>)
    requires Run(Init(nblocks, none), trace).Some?
    ensures Inv(Run(Init(nblocks, none), trace).value)
  {
    if trace == [] {
      assert ActiveSet(map[]) == {};
    } else {
      RunInv(nblocks, none, trace[..|trace| - 1]);
      NextInv(Run(Init(nblocks, none), trace[..|trace| - 1]).value, trace[|trace| - 1]);
    }
  }

  /** In every state of every run: one thread at most is at the device; a thread about to fetch its result
      finds the result and the buffer of its own operation on the sector it asked for; and with no
      thread at the device the semaphores are back at 1 and 0. */
  lemma Handshake(nblocks: nat, none: Op, trace: seq<Event>, t: Tid)
    requires Run(Init(nblocks, none), trace).Some?
    ensures var s := Run(Init(nblocks, none), trace).value;
            && |ActiveSet(s.pcs)| <= 1
            && (PcOf(s, t).Completed? ==> s.resultOf == s.buffer == OpOf(t, PcOf(s, t).job))
            && (ActiveSet(s.pcs) == {} ==> s.clear == 1 && s.done == 0 && s.dev.DevIdle? && s.handler.NotRunning?)
  {
    RunInv(nblocks, none, trace);
    assert ThreadOk(Run(Init(nblocks, none), trace).value, t);
  }

  /** A thread waiting for its completion will get it: the disk or the handler has a step to take, or
      the semaphore is already up. */
  lemma CompletionComes(s: State, t: Tid)
    requires Inv(s) && PcOf(s, t).Started?
    ensures s.done == 1 || s.dev.Working? || s.dev.Finished? || !s.handler.NotRunning?
  {
    assert ThreadOk(s, t);
  }

  // ---------------------------------------------------------------- the end of the disk

  /** The i-th operation is on the i-th sector asked for, and that is on the disk. */
  predicate RightSector(nblocks: nat, offset: nat, i: nat) {
    (FirstSector(offset) + i) % W32 == offset / SECTSIZE + i < nblocks
  }

  /** The check against the end of the disk does what it is for exactly if the number just past the last sector
      asked for fits 32 bits. */
  lemma EndOfDisk(nblocks: nat, offset: nat, resid: nat)
    requires nblocks < W32 && SECTSIZE <= resid < W32 * SECTSIZE && Accepted(nblocks, offset, resid)
    ensures (forall i: nat :: i < SectorCount(resid) ==> RightSector(nblocks, offset, i))
            <==> offset / SECTSIZE + resid / SECTSIZE < W32
  {
    var len := SectorCount(resid);
    assert len == resid / SECTSIZE > 0;
    if offset / SECTSIZE + len >= W32 {
      assert !RightSector(nblocks, offset, len - 1);
    }
  }

  /** Every request of the run ends below sector 2^32. */
  ghost predicate Fits(trace: seq<Event>) {
    forall i :: 0 <= i < |trace| && trace[i].Start? ==>
      trace[i].offset / SECTSIZE + trace[i].resid / SECTSIZE < W32
  }

  predicate JobOk(pc: Pc, nblocks: nat) { pc.Out? || pc.job.sector < pc.job.end <= nblocks }

  lemma {:induction false} JobsOk(nblocks: nat, none: Op, trace: seq<Event>, t: Tid)
    requires Run(Init(nblocks, none), trace).Some? && Fits(trace)
    ensures var s := Run(Init(nblocks, none), trace).value; s.nblocks == nblocks && JobOk(PcOf(s, t), nblocks)
  {
    if trace != [] {
      var e := trace[|trace| - 1];
      JobsOk(nblocks, none, trace[..|trace| - 1], t);
      assert e.Start? ==> e.offset / SECTSIZE + e.resid / SECTSIZE < W32;
    }
  }

  /** Then, in every state of every run, what the disk works on is a sector that it has. */
  lemma OnDisk(nblocks: nat, none: Op, trace: seq<Event>)
    requires nblocks < W32 && Run(Init(nblocks, none), trace).Some? && Fits(trace)
    ensures var s := Run(Init(nblocks, none), trace).value; s.dev.Working? ==> s.dev.op.sector < nblocks
  {
    var s := Run(Init(nblocks, none), trace).value;
    RunInv(nblocks, none, trace);
    if s.dev.Working? {
      var t :| t in ActiveSet(s.pcs);
      assert ThreadOk(s, t);
      JobsOk(nblocks, none, trace, t);
    }
  }
}
