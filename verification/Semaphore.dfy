/**
 Semaphores and sleep locks over wait channels (kern/thread/synch.c with
 wchan_sleep, wchan_wakeone and thread_switch of kern/thread/thread.c), as a
 step system. Any number of threads run P and V (or acquire and release); every
 acquisition and release of the object's spinlock and of the wait channel's
 spinlock is a step of its own, so every interleaving the locks allow is a run.
 */
module Semaphore {
  import opened Common

  type Tid = nat

  /** What is being waited for: a count, or a lock with an owner. */
  datatype Core = Counter(n: nat) | Owner(o: Option<Tid>)

  function CountOf(c: Core): nat {
    match c
    case Counter(n) => n
    case Owner(o) => if o.None? then 1 else 0
  }

  function TakeBy(c: Core, t: Tid): Core
    requires CountOf(c) > 0
  {
    match c
    case Counter(n) => Counter(n - 1)
    case Owner(_) => Owner(Some(t))
  }

  function PutBack(c: Core): Core {
    match c
    case Counter(n) => Counter(n + 1)
    case Owner(_) => Owner(None)
  }

  /** Where a thread is. "Sem" is the object's spinlock, "Chan" the wait channel's. */
  datatype Pc =
    | Outside
    | PWantSem                          // entering P
    | PTest(woken: bool)                // holds Sem, about to test the count
    | PTaken                            // holds Sem, has taken
    | PWantChan                         // holds Sem, found nothing to take
    | PBridge                           // holds Sem and Chan
    | PCommitted                        // holds Chan, on its way to sleep
    | PAsleep                           // on the wait channel's list
    | PPopped                           // off the list, not yet runnable
    | PWoken                            // runnable again, about to retake Sem
    | VWantSem                          // entering V
    | VHold                             // holds Sem, about to put back
    | VWantChan                         // holds Sem, has put back
    | VPop                              // holds Sem and Chan, about to take a sleeper off the list
    | VUnlock(target: Option<Tid>)      // holds Sem and Chan, has done so
    | VWake(target: Option<Tid>)        // holds Sem, about to make the sleeper runnable
    | VDone                             // holds Sem

  predicate HoldsSem(pc: Pc) {
    pc.PTest? || pc.PTaken? || pc.PWantChan? || pc.PBridge? || pc.VHold? || pc.VWantChan? || pc.VPop?
    || pc.VUnlock? || pc.VWake? || pc.VDone?
  }

  predicate HoldsChan(pc: Pc) {
    pc.PBridge? || pc.PCommitted? || pc.VPop? || pc.VUnlock?
  }

  /** Asleep, or decided to sleep. */
  predicate Waiting(pc: Pc) { pc.PWantChan? || pc.PBridge? || pc.PCommitted? || pc.PAsleep? }

  /** Woken, and has not yet looked at the count again. */
  predicate Woken(pc: Pc) { pc.PPopped? || pc.PWoken? || pc == PTest(true) }

  /** Has put back but not yet taken a sleeper off the list. */
  predicate Signalling(pc: Pc) { pc.VWantChan? || pc.VPop? }

  /** puts and takes count the completed put-backs and takes. */
  datatype State = State(core: Core, sem: Option<Tid>, chan: Option<Tid>, sleepers: seq<Tid>, pcs: map<Tid, Pc>,
                         initial: nat, puts: nat, takes: nat)

  function PcOf(s: State, t: Tid): Pc { if t in s.pcs then s.pcs[t] else Outside }

  function At(s: State, t: Tid, pc: Pc): State { s.(pcs := s.pcs[t := pc]) }

  datatype Action = StartP | StartV | Continue

  /** One step of thread t, or None if it cannot take one now. A lock is entered only by a thread that
      does not own it, and released only by its owner. */
  function Step(s: State, t: Tid, a: Action): Option<State> {
    match PcOf(s, t)
    case Outside =>
      if a.StartP? && s.core != Owner(Some(t)) then Some(At(s, t, PWantSem))
      else if a.StartV? && (s.core.Counter? || s.core == Owner(Some(t))) then Some(At(s, t, VWantSem))
      else None
    case PWantSem => if s.sem.None? then Some(At(s, t, PTest(false)).(sem := Some(t))) else None
    case PWoken => if s.sem.None? then Some(At(s, t, PTest(true)).(sem := Some(t))) else None
    case PTest(_) =>
      if CountOf(s.core) == 0 then Some(At(s, t, PWantChan))
      else Some(At(s, t, PTaken).(core := TakeBy(s.core, t), takes := s.takes + 1))
    case PTaken => Some(At(s, t, Outside).(sem := None))
    case PWantChan => if s.chan.None? then Some(At(s, t, PBridge).(chan := Some(t))) else None
    case PBridge => Some(At(s, t, PCommitted).(sem := None))
    case PCommitted => Some(At(s, t, PAsleep).(chan := None, sleepers := s.sleepers + [t]))
    case PAsleep => None
    case PPopped => None
    case VWantSem => if s.sem.None? then Some(At(s, t, VHold).(sem := Some(t))) else None
    case VHold => Some(At(s, t, VWantChan).(core := PutBack(s.core), puts := s.puts + 1))
    case VWantChan => if s.chan.None? then Some(At(s, t, VPop).(chan := Some(t))) else None
    case VPop =>
      if s.sleepers == [] then Some(At(s, t, VUnlock(None)))
      else Some(At(At(s, s.sleepers[0], PPopped), t, VUnlock(Some(s.sleepers[0]))).(sleepers := s.sleepers[1..]))
    case VUnlock(target) => Some(At(s, t, VWake(target)).(chan := None))
    case VWake(target) =>
      if target.None? then Some(At(s, t, VDone))
      else Some(At(At(s, target.value, PWoken), t, VDone))
    case VDone => Some(At(s, t, Outside).(sem := None))
  }

  function Init(core: Core): State {
    State(core, None, None, [], map[], CountOf(core), 0, 0)
  }

  /** The state after a sequence of steps, if every one of them was possible. */
  function Run(s: State, trace: seq<(Tid, Action)>): Option<State> {
    if trace == [] then Some(s)
    else match Run(s, trace[..|trace| - 1])
      case None => None
      case Some(m) => Step(m, trace[|trace| - 1].0, trace[|trace| - 1].1)
  }

  // ---------------------------------------------------------------- invariant

  ghost function WaitingSet(pcs: map<Tid, Pc>): set<Tid> { set t | t in pcs && Waiting(pcs[t]) }
  ghost function WokenSet(pcs: map<Tid, Pc>): set<Tid> { set t | t in pcs && Woken(pcs[t]) }
  ghost function SignalSet(pcs: map<Tid, Pc>): set<Tid> { set t | t in pcs && Signalling(pcs[t]) }

  function TargetOf(pc: Pc): Option<Tid> {
    if pc.VUnlock? || pc.VWake? then pc.target else None
  }

  /** What holds of every thread: a spinlock is held by exactly the thread it says; the list holds the
      sleeping threads; a thread off the list and not yet runnable is the target of the one V in
      progress; whoever decided to sleep and still holds Sem saw the truth; whoever is releasing a
      lock owns it. */
  ghost predicate ThreadOk(s: State, t: Tid) {
    var pc := PcOf(s, t);
    && (HoldsSem(pc) <==> s.sem == Some(t))
    && (HoldsChan(pc) <==> s.chan == Some(t))
    && (pc.PAsleep? <==> t in s.sleepers)
    && (pc.PPopped? ==> s.sem.Some? && TargetOf(PcOf(s, s.sem.value)) == Some(t))
    && (TargetOf(pc).Some? ==> PcOf(s, TargetOf(pc).value) == PPopped)
    && (pc.PWantChan? || pc.PBridge? ==> CountOf(s.core) == 0)
    && (s.core.Owner? && (pc.VWantSem? || pc.VHold?) ==> s.core == Owner(Some(t)))
  }

  ghost predicate ThreadsOk(s: State) {
    forall t: Tid :: ThreadOk(s, t)
  }

  /** Nothing is created or lost: what is available is what there was, plus put back, minus taken. */
  ghost predicate Conserved(s: State) {
    CountOf(s.core) + s.takes == s.initial + s.puts
  }

  /** No lost wakeup: while anyone waits, what is available is already promised to threads that were
      woken or are about to be. */
  ghost predicate Promised(s: State) {
    WaitingSet(s.pcs) != {} ==> CountOf(s.core) <= |WokenSet(s.pcs)| + |SignalSet(s.pcs)|
  }

  ghost predicate Inv(s: State) {
    ThreadsOk(s) && Distinct(s.sleepers) && Conserved(s) && Promised(s)
  }

  lemma MovedSets(pcs: map<Tid, Pc>, t: Tid, pc: Pc)
    ensures WaitingSet(pcs[t := pc]) == if Waiting(pc) then WaitingSet(pcs) + {t} else WaitingSet(pcs) - {t}
    ensures WokenSet(pcs[t := pc]) == if Woken(pc) then WokenSet(pcs) + {t} else WokenSet(pcs) - {t}
    ensures SignalSet(pcs[t := pc]) == if Signalling(pc) then SignalSet(pcs) + {t} else SignalSet(pcs) - {t}
  {
  }

  lemma InitInv(core: Core)
    ensures Inv(Init(core))
  {
    assert WaitingSet(map[]) == {};
  }

  /** The thread, other than t, that a step of t moves. */
  function Other(s: State, t: Tid): Option<Tid> {
    match PcOf(s, t)
    case VPop => if s.sleepers == [] then None else Some(s.sleepers[0])
    case VWake(target) => target
    case _ => None
  }

  predicate TakesOff(pc: Pc) { pc.VPop? || pc.VUnlock? || pc.VWake? || pc.VDone? }

  predicate PuttingBack(pc: Pc) { pc.Outside? || pc.VWantSem? || pc.VHold? || pc.VWantChan? }

  lemma StepSelf(s: State, t: Tid, a: Action)
    requires ThreadOk(s, t) && Step(s, t, a).Some?
    requires Other(s, t).Some? ==> ThreadOk(s, Other(s, t).value)
    ensures ThreadOk(Step(s, t, a).value, t)
  {
    hide ThreadOk, Step;
    if TakesOff(PcOf(s, t)) {
      SelfWhenWaking(s, t, a);
    } else if PuttingBack(PcOf(s, t)) {
      SelfWhenPutting(s, t, a);
    } else {
      SelfWhenTaking(s, t, a);
    }
  }

  lemma SelfWhenWaking(s: State, t: Tid, a: Action)
    requires ThreadOk(s, t) && Step(s, t, a).Some? && TakesOff(PcOf(s, t))
    requires Other(s, t).Some? ==> ThreadOk(s, Other(s, t).value)
    ensures ThreadOk(Step(s, t, a).value, t)
  {
    if PcOf(s, t).VPop? && s.sleepers != [] { assert s.sleepers == [s.sleepers[0]] + s.sleepers[1..]; }
  }

  lemma SelfWhenPutting(s: State, t: Tid, a: Action)
    requires ThreadOk(s, t) && Step(s, t, a).Some? && PuttingBack(PcOf(s, t))
    ensures ThreadOk(Step(s, t, a).value, t)
  {
  }

  lemma SelfWhenTaking(s: State, t: Tid, a: Action)
    requires ThreadOk(s, t) && Step(s, t, a).Some? && !TakesOff(PcOf(s, t)) && !PuttingBack(PcOf(s, t))
    ensures ThreadOk(Step(s, t, a).value, t)
  {
  }

  lemma StepOther(s: State, t: Tid, a: Action, u: Tid)
    requires ThreadOk(s, t) && ThreadOk(s, u) && Other(s, t) == Some(u) && Distinct(s.sleepers)
    requires Step(s, t, a).Some?
    ensures ThreadOk(Step(s, t, a).value, u)
  {
    if PcOf(s, t).VPop? { assert s.sleepers == [u] + s.sleepers[1..]; }
  }

  lemma StepRest(s: State, t: Tid, a: Action, x: Tid)
    requires ThreadOk(s, t) && ThreadOk(s, x) && x != t && Other(s, t) != Some(x) && Step(s, t, a).Some?
    requires TargetOf(PcOf(s, x)).Some? ==> ThreadOk(s, TargetOf(PcOf(s, x)).value)
    ensures ThreadOk(Step(s, t, a).value, x)
  {
    hide ThreadOk, Step;
    if TakesOff(PcOf(s, t)) {
      RestWhenWaking(s, t, a, x);
    } else if PuttingBack(PcOf(s, t)) {
      RestWhenPutting(s, t, a, x);
    } else {
      RestWhenTaking(s, t, a, x);
    }
  }

  lemma RestWhenTaking(s: State, t: Tid, a: Action, x: Tid)
    requires ThreadOk(s, t) && ThreadOk(s, x) && x != t && Step(s, t, a).Some?
    requires !TakesOff(PcOf(s, t)) && !PuttingBack(PcOf(s, t))
    ensures ThreadOk(Step(s, t, a).value, x)
  {
  }

  lemma RestWhenPutting(s: State, t: Tid, a: Action, x: Tid)
    requires ThreadOk(s, t) && ThreadOk(s, x) && x != t && PuttingBack(PcOf(s, t)) && Step(s, t, a).Some?
    ensures ThreadOk(Step(s, t, a).value, x)
  {
  }

  lemma RestWhenWaking(s: State, t: Tid, a: Action, x: Tid)
    requires ThreadOk(s, t) && ThreadOk(s, x) && x != t && Other(s, t) != Some(x)
    requires Step(s, t, a).Some? && TakesOff(PcOf(s, t))
    requires TargetOf(PcOf(s, x)).Some? ==> ThreadOk(s, TargetOf(PcOf(s, x)).value)
    ensures ThreadOk(Step(s, t, a).value, x)
  {
    if PcOf(s, t).VPop? && s.sleepers != [] { assert s.sleepers == [s.sleepers[0]] + s.sleepers[1..]; }
  }

  lemma StepThread(s: State, t: Tid, a: Action, x: Tid)
    requires ThreadsOk(s) && Distinct(s.sleepers) && Step(s, t, a).Some?
    ensures ThreadOk(Step(s, t, a).value, x)
  {
    hide ThreadOk, Step;
    assert ThreadOk(s, t) && ThreadOk(s, x);
    if x == t {
      if Other(s, t).Some? { assert ThreadOk(s, Other(s, t).value); }
      StepSelf(s, t, a);
    } else if Other(s, t) == Some(x) {
      StepOther(s, t, a, x);
    } else {
      if TargetOf(PcOf(s, x)).Some? { assert ThreadOk(s, TargetOf(PcOf(s, x)).value); }
      StepRest(s, t, a, x);
    }
  }

  lemma StepConserved(s: State, t: Tid, a: Action)
    requires Inv(s) && Step(s, t, a).Some?
    ensures Conserved(Step(s, t, a).value) && Distinct(Step(s, t, a).value.sleepers)
  {
    assert ThreadOk(s, t);
  }

  /** How many threads were woken or are about to wake one. */
  ghost function Promises(pcs: map<Tid, Pc>): nat { |WokenSet(pcs)| + |SignalSet(pcs)| }

  /** The promises after one thread moved. */
  lemma MovedPromises(pcs: map<Tid, Pc>, t: Tid, pc: Pc)
    ensures var was := if t in pcs then pcs[t] else Outside;
            && Promises(pcs[t := pc]) == Promises(pcs) - Promise(was) + Promise(pc)
            && WaitingSet(pcs[t := pc]) == (if Waiting(pc) then WaitingSet(pcs) + {t} else WaitingSet(pcs) - {t})
            && (t in WaitingSet(pcs) <==> Waiting(was))
  {
    hide Waiting, Woken, Signalling;
    MovedSets(pcs, t, pc);
    WasThere(pcs, t);
    OneKind(pc);
  }

  lemma OneKind(pc: Pc)
    ensures !(Woken(pc) && Signalling(pc))
  {
  }

  lemma WasThere(pcs: map<Tid, Pc>, t: Tid)
    ensures var was := if t in pcs then pcs[t] else Outside;
            && (t in WaitingSet(pcs) <==> Waiting(was)) && (t in WokenSet(pcs) <==> Woken(was))
            && (t in SignalSet(pcs) <==> Signalling(was)) && !(Woken(was) && Signalling(was))
  {
  }

  function Promise(pc: Pc): nat { if Woken(pc) || Signalling(pc) then 1 else 0 }

  /** At the moment a V finds the list empty, nobody is waiting or about to: that is what the bridge
      from one spinlock to the other is for. */
  lemma NobodyWaits(s: State, t: Tid)
    requires ThreadsOk(s) && PcOf(s, t).VPop? && s.sleepers == []
    ensures WaitingSet(s.pcs) == {}
  {
    assert ThreadOk(s, t);
    forall x | x in s.pcs ensures !Waiting(s.pcs[x]) { assert ThreadOk(s, x); }
  }

  lemma StepPromised(s: State, t: Tid, a: Action)
    requires Inv(s) && Step(s, t, a).Some?
    ensures Promised(Step(s, t, a).value)
  {
    hide Promises, Promised, WaitingSet;
    assert ThreadOk(s, t);
    if Other(s, t).Some? {
      var u := Other(s, t).value;
      assert ThreadOk(s, u) by { if PcOf(s, t).VPop? { assert u in s.sleepers; } }
      PromisedWaking(s, t, a, u);
    } else {
      PromisedAlone(s, t, a);
    }
  }

  lemma PromisedWaking(s: State, t: Tid, a: Action, u: Tid)
    requires ThreadOk(s, t) && ThreadOk(s, u) && Other(s, t) == Some(u) && Promised(s) && Step(s, t, a).Some?
    ensures Promised(Step(s, t, a).value)
  {
    var s' := Step(s, t, a).value;
    MovedPromises(s.pcs, u, PcOf(s', u));
    MovedPromises(s.pcs[u := PcOf(s', u)], t, PcOf(s', t));
  }

  lemma PromisedAlone(s: State, t: Tid, a: Action)
    requires ThreadsOk(s) && Promised(s) && Other(s, t).None? && Step(s, t, a).Some?
    ensures Promised(Step(s, t, a).value)
  {
    assert ThreadOk(s, t);
    MovedPromises(s.pcs, t, PcOf(Step(s, t, a).value, t));
    if PcOf(s, t).VPop? { NobodyWaits(s, t); }
  }

  lemma StepInv(s: State, t: Tid, a: Action)
    requires Inv(s) && Step(s, t, a).Some?
    ensures Inv(Step(s, t, a).value)
  {
    hide Step, ThreadOk, Promised;
    StepPromised(s, t, a);
    StepConserved(s, t, a);
    forall x: Tid ensures ThreadOk(Step(s, t, a).value, x) { StepThread(s, t, a, x); }
  }

  /** Every state of every run keeps the invariant. */
  lemma {:induction false} RunInv(core: Core, trace: seq<(Tid, Action)>)
    requires Run(Init(core), trace).Some?
    ensures Inv(Run(Init(core), trace).value)
  {
    if trace == [] {
      InitInv(core);
    } else {
      var (t, a) := trace[|trace| - 1];
      RunInv(core, trace[..|trace| - 1]);
      StepInv(Run(Init(core), trace[..|trace| - 1]).value, t, a);
    }
  }

  /** In every reachable state: what is available is the initial amount plus put back minus taken, and
      if something is available while anyone sleeps or is about to, then some thread has been
      woken or is on its way to wake one. */
  lemma NoLostWakeup(core: Core, trace: seq<(Tid, Action)>)
    requires Run(Init(core), trace).Some?
    ensures var s := Run(Init(core), trace).value;
            && CountOf(s.core) == CountOf(core) + s.puts - s.takes
            && (WaitingSet(s.pcs) != {} ==> CountOf(s.core) <= |WokenSet(s.pcs)| + |SignalSet(s.pcs)|)
            && (WaitingSet(s.pcs) != {} && CountOf(s.core) > 0 ==>
                  exists t :: t in s.pcs && (Woken(s.pcs[t]) || Signalling(s.pcs[t])))
  {
    RunInv(core, trace);
    RunInitial(core, trace);
    var s := Run(Init(core), trace).value;
    if WaitingSet(s.pcs) != {} && CountOf(s.core) > 0 {
      if WokenSet(s.pcs) != {} {
        var t :| t in WokenSet(s.pcs);
      } else {
        assert |SignalSet(s.pcs)| > 0;
        var t :| t in SignalSet(s.pcs);
      }
    }
  }

  lemma {:induction false} RunInitial(core: Core, trace: seq<(Tid, Action)>)
    requires Run(Init(core), trace).Some?
    ensures Run(Init(core), trace).value.initial == CountOf(core)
  {
    if trace != [] { RunInitial(core, trace[..|trace| - 1]); }
  }

  /** A thread that is in the middle of something other than sleeping. */
  predicate Active(pc: Pc) { !pc.Outside? && !pc.PAsleep? && !pc.PPopped? }

  /** No deadlock on the two spinlocks: if any thread is active, some active thread can take a step. */
  lemma Progress(s: State, t: Tid) returns (u: Tid)
    requires ThreadsOk(s) && Active(PcOf(s, t))
    ensures Active(PcOf(s, u)) && Step(s, u, Continue).Some?
  {
    assert ThreadOk(s, t);
    u := t;
    if s.sem.Some? {
      u := s.sem.value;
      assert ThreadOk(s, u);
    }
    if (PcOf(s, u).PWantChan? || PcOf(s, u).VWantChan?) && s.chan.Some? {
      u := s.chan.value;
      assert ThreadOk(s, u);
    }
  }

  /** A popped thread's waker is active, so together with Progress no wakeup is ever stuck. */
  lemma WakerActive(s: State, t: Tid)
    requires ThreadsOk(s) && PcOf(s, t).PPopped?
    ensures s.sem.Some? && Active(PcOf(s, s.sem.value)) && TargetOf(PcOf(s, s.sem.value)) == Some(t)
  {
    assert ThreadOk(s, t);
  }

  /** Mutual exclusion of locks: while a thread owns the lock, only its own release changes the owner. */
  lemma OwnerStays(s: State, t: Tid, a: Action, h: Tid)
    requires Inv(s) && s.core == Owner(Some(h)) && Step(s, t, a).Some?
    ensures Step(s, t, a).value.core == if t == h && PcOf(s, t).VHold? then Owner(None) else Owner(Some(h))
  {
    assert ThreadOk(s, t);
  }
}
