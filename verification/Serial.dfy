/**
 Writing characters to the serial console: putch_intr and con_start of
 kern/dev/generic/console.c over lser_write, lser_writepolled and lser_irq of
 kern/dev/lamebus/lser.c, as a step system. Any number of threads write with
 interrupts or by polling, interrupt handlers start at any time, and the device
 finishes a character whenever it likes. The write semaphore is atomic.
 */
module Serial {
  import opened Common

  type Tid = nat

  datatype Pc =
    | Idle
    | WAfterP                           // putch_intr, past P
    | WLocked                           // lser_write, holds the device lock
    | WSent                             // has set busy and written the character
    | PLocked                           // lser_writepolled, holds the device lock
    | PWaitOld                          // waiting for the character in transit
    | PSend(irqpending: bool)           // about to write its own
    | PWaitNew(irqpending: bool)        // waiting for it
    | PUnlock                           // about to release the lock
    | ILocked                           // lser_irq, holds the device lock
    | IUnlock(clear: bool)              // has read and cleared the write interrupt status
    | IWantV                            // has released the lock, about to call con_start

  predicate Holds(pc: Pc) {
    pc.WLocked? || pc.WSent? || pc.PLocked? || pc.PWaitOld? || pc.PSend? || pc.PWaitNew? || pc.PUnlock?
    || pc.ILocked? || pc.IUnlock?
  }

  /** Has the right to write: past P, and has not yet set busy. */
  predicate PastP(pc: Pc) { pc.WAfterP? || pc.WLocked? }

  /** Has cleared busy, and has not yet called V. */
  predicate PendingV(pc: Pc) { pc == IUnlock(true) || pc.IWantV? }

  /** wsem: the write semaphore; busy: ls_wbusy; sending: a character is in transit; ready: the write
      interrupt status is active. Panicked records lser_write's "Not clear to write". */
  datatype State = State(wsem: nat, busy: bool, lock: Option<Tid>, sending: bool, ready: bool, pcs: map<Tid, Pc>,
                         panicked: bool)

  function PcOf(s: State, t: Tid): Pc { if t in s.pcs then s.pcs[t] else Idle }
  function At(s: State, t: Tid, pc: Pc): State { s.(pcs := s.pcs[t := pc]) }

  /** What starts at an idle thread, or the next step of a thread that is not. */
  datatype Action = Write | WritePolled | Interrupt | Continue

  function Step(s: State, t: Tid, a: Action): Option<State> {
    match PcOf(s, t)
    case Idle =>
      (match a
       case Write => if s.wsem > 0 then Some(At(s, t, WAfterP).(wsem := s.wsem - 1)) else None
       case WritePolled => if s.lock.None? then Some(At(s, t, PLocked).(lock := Some(t))) else None
       case Interrupt => if s.lock.None? then Some(At(s, t, ILocked).(lock := Some(t))) else None
       case Continue => None)
    case WAfterP => if s.lock.None? then Some(At(s, t, WLocked).(lock := Some(t))) else None
    case WLocked =>
      if s.busy then Some(s.(panicked := true))
      else Some(At(s, t, WSent).(busy := true, sending := true))
    case WSent => Some(At(s, t, Idle).(lock := None))
    case PLocked => if s.busy then Some(At(s, t, PWaitOld)) else Some(At(s, t, PSend(false)))
    case PWaitOld => if s.ready then Some(At(s, t, PSend(true)).(ready := false)) else None
    case PSend(p) => Some(At(s, t, PWaitNew(p)).(sending := true))
    case PWaitNew(p) => if s.ready then Some(At(s, t, PUnlock).(ready := p)) else None
    case PUnlock => Some(At(s, t, Idle).(lock := None))
    case ILocked =>
      if s.ready then Some(At(s, t, IUnlock(true)).(busy := false, ready := false))
      else Some(At(s, t, IUnlock(false)))
    case IUnlock(clear) => Some(At(s, t, if clear then IWantV else Idle).(lock := None))
    case IWantV => Some(At(s, t, Idle).(wsem := s.wsem + 1))
  }

  /** The device finishes the character in transit. */
  function DeviceDone(s: State): Option<State> {
    if s.sending then Some(s.(sending := false, ready := true)) else None
  }

  datatype Event = Thread(t: Tid, a: Action) | Device

  function Next(s: State, e: Event): Option<State> {
    match e
    case Thread(t, a) => Step(s, t, a)
    case Device => DeviceDone(s)
  }

  /** config_con creates the semaphore with count 1; config_lser leaves the device idle. */
  function Init(): State { State(1, false, None, false, false, map[], false) }

  function Run(s: State, trace: seq<Event>): Option<State> {
    if trace == [] then Some(s)
    else match Run(s, trace[..|trace| - 1])
      case None => None
      case Some(m) => Next(m, trace[|trace| - 1])
  }

  // ---------------------------------------------------------------- invariant

  ghost function PastSet(pcs: map<Tid, Pc>): set<Tid> { set t | t in pcs && PastP(pcs[t]) }
  ghost function PendingSet(pcs: map<Tid, Pc>): set<Tid> { set t | t in pcs && PendingV(pcs[t]) }

  /** There is one right to write: in the semaphore, with a writer, with the device, or with a handler. */
  ghost predicate OneToken(s: State) {
    s.wsem + |PastSet(s.pcs)| + (if s.busy then 1 else 0) + |PendingSet(s.pcs)| == 1
  }

  /** Between polled writes busy means that a character is in transit or its completion unseen, and in
      the middle of one the poller's own character is accounted for. */
  ghost predicate DeviceOk(s: State) {
    && !(s.sending && s.ready)
    && var pc := if s.lock.Some? then PcOf(s, s.lock.value) else Idle;
       match pc
       case PWaitOld => s.busy && (s.sending || s.ready)
       case PSend(p) => s.busy == p && !s.sending && !s.ready
       case PWaitNew(p) => s.busy == p && (s.sending || s.ready)
       case _ => s.busy == (s.sending || s.ready)
  }

  ghost predicate LocksOk(s: State) {
    forall t: Tid :: Holds(PcOf(s, t)) <==> s.lock == Some(t)
  }

  ghost predicate Inv(s: State) {
    OneToken(s) && DeviceOk(s) && LocksOk(s) && !s.panicked
  }

  function Weight(pc: Pc): nat { if PastP(pc) || PendingV(pc) then 1 else 0 }

  lemma MovedToken(pcs: map<Tid, Pc>, t: Tid, pc: Pc)
    ensures var was := if t in pcs then pcs[t] else Idle;
            |PastSet(pcs[t := pc])| + |PendingSet(pcs[t := pc])|
            == |PastSet(pcs)| + |PendingSet(pcs)| - Weight(was) + Weight(pc)
    ensures t in pcs && PastP(pcs[t]) ==> t in PastSet(pcs)
  {
    MovedSets(pcs, t, pc);
    var was := if t in pcs then pcs[t] else Idle;
    assert t in PastSet(pcs) <==> PastP(was);
    assert t in PendingSet(pcs) <==> PendingV(was);
  }

  lemma MovedSets(pcs: map<Tid, Pc>, t: Tid, pc: Pc)
    ensures PastSet(pcs[t := pc]) == if PastP(pc) then PastSet(pcs) + {t} else PastSet(pcs) - {t}
    ensures PendingSet(pcs[t := pc]) == if PendingV(pc) then PendingSet(pcs) + {t} else PendingSet(pcs) - {t}
  {
  }

  /** A writer past P finds the device not busy: the panic cannot happen. */
  lemma ClearToWrite(s: State, t: Tid)
    requires OneToken(s) && PastP(PcOf(s, t))
    ensures !s.busy
  {
    assert t in PastSet(s.pcs);
  }

  lemma StepToken(s: State, t: Tid, a: Action)
    requires Inv(s) && Step(s, t, a).Some?
    ensures OneToken(Step(s, t, a).value) && !Step(s, t, a).value.panicked
  {
    hide PastSet, PendingSet;
    var s' := Step(s, t, a).value;
    assert Holds(PcOf(s, t)) <==> s.lock == Some(t);
    if PcOf(s, t).WLocked? { ClearToWrite(s, t); }
    MovedToken(s.pcs, t, PcOf(s', t));
  }

  lemma StepDevice(s: State, t: Tid, a: Action)
    requires Inv(s) && Step(s, t, a).Some?
    ensures DeviceOk(Step(s, t, a).value) && LocksOk(Step(s, t, a).value)
  {
    hide PastSet, PendingSet;
    var s' := Step(s, t, a).value;
    assert Holds(PcOf(s, t)) <==> s.lock == Some(t);
    if PcOf(s, t).WLocked? { ClearToWrite(s, t); }
    forall x: Tid ensures Holds(PcOf(s', x)) <==> s'.lock == Some(x) {
      assert Holds(PcOf(s, x)) <==> s.lock == Some(x);
    }
    if s.lock.Some? { assert Holds(PcOf(s, s.lock.value)); }
  }

  lemma NextInv(s: State, e: Event)
    requires Inv(s) && Next(s, e).Some?
    ensures Inv(Next(s, e).value)
  {
    match e {
      case Thread(t, a) =>
        StepToken(s, t, a);
        StepDevice(s, t, a);
      case Device =>
    }
  }

  /** In every state of every run there is exactly one right to write, "Not clear to write" has not
      happened, and while the device lock is free an active write interrupt means busy. */
  lemma {:induction false} Handshake(trace: seq<Event>)
    requires Run(Init(), trace).Some?
    ensures var s := Run(Init(), trace).value;
            && Inv(s)
            && (s.lock.None? && s.ready ==> s.busy)
  {
    if trace == [] {
      assert PastSet(map[]) == {} && PendingSet(map[]) == {};
    } else {
      Handshake(trace[..|trace| - 1]);
      NextInv(Run(Init(), trace[..|trace| - 1]).value, trace[|trace| - 1]);
    }
  }

  /** No character is written to the device while another is in transit or its completion unseen. */
  lemma NeverOverwrites(s: State, t: Tid)
    requires Inv(s) && (PcOf(s, t).WLocked? || PcOf(s, t).PSend?)
    ensures !s.sending && !s.ready
  {
    assert s.lock == Some(t);
    if PcOf(s, t).WLocked? { ClearToWrite(s, t); }
  }

  /** A polling loop never waits for a completion that cannot come. */
  lemma PollEnds(s: State, t: Tid)
    requires Inv(s) && (PcOf(s, t).PWaitOld? || PcOf(s, t).PWaitNew?)
    ensures Step(s, t, Continue).Some? || (DeviceDone(s).Some? && Step(DeviceDone(s).value, t, Continue).Some?)
  {
    assert s.lock == Some(t);
  }

  /** The right to write is never lost: if the semaphore is empty, some writer holds the right, or a handler is
      about to give it back, or the device is to finish a character and then any handler will see it. */
  lemma RightNotLost(s: State)
    requires Inv(s) && s.wsem == 0 && s.lock.None?
    ensures PastSet(s.pcs) != {} || PendingSet(s.pcs) != {} || s.ready || s.sending
  {
  }
}
