/**
 Interrupt priority accounting (kern/thread/spl.c, kern/thread/spinlock.c) and
 how it is carried across context switches (thread_switch, thread_startup and
 thread_fork in kern/thread/thread.c). Methods are the steps of one processor;
 those of different processors may come in any order.
 */
module Spl {
  import opened Common

  type Cpu = nat
  type Tid = nat

  const IPL_NONE := 0
  const IPL_HIGH := 1

  datatype Lock = RunQueue(cpu: Cpu) | Other(id: nat)

  datatype Place = Running(cpu: Cpu) | Away

  /** t_iplhigh_count, t_curspl, whether the thread is on a processor, and the level that its last thread_switch
      found and will restore (spl 0 for a thread that has yet to start up). */
  datatype Thread = Thread(count: int, curspl: int, place: Place, saved: int)

  /** cur: the thread on each processor; irq: interrupts enabled; holder: lk_holder of the locks that
      are held; spin: processors waiting for a lock. */
  datatype Machine = Machine(cur: map<Cpu, Tid>, irq: map<Cpu, bool>, thr: map<Tid, Thread>,
                             holder: map<Lock, Cpu>, spin: map<Cpu, Lock>)

  /** Locks held by processor c. */
  ghost function Held(m: Machine, c: Cpu): set<Lock> { set l | l in m.holder && m.holder[l] == c }

  /** Spinlock acquisitions charged to the thread on processor c, the one in progress included. */
  ghost function Charges(m: Machine, c: Cpu): nat { |Held(m, c)| + if c in m.spin then 1 else 0 }

  predicate IsLevel(spl: int) { IPL_NONE <= spl <= IPL_HIGH }

  ghost predicate CpuOk(m: Machine, c: Cpu) {
    && c in m.cur && c in m.irq && m.cur[c] in m.thr
    && var t := m.thr[m.cur[c]];
    && t.place == Running(c) && IsLevel(t.curspl)
    && t.count == t.curspl + Charges(m, c)
    && (m.irq[c] <==> t.count == 0)
  }

  ghost predicate ThreadOk(m: Machine, t: Tid)
    requires t in m.thr
  {
    match m.thr[t].place
    case Away => m.thr[t].count == 2 && m.thr[t].curspl == IPL_HIGH && IsLevel(m.thr[t].saved)
    case Running(c) => c in m.cur && m.cur[c] == t
  }

  /** The accounting: the running thread's count is its spl plus the spinlocks charged to it, and
      interrupts are on exactly when that is zero; every thread off its processor has a count of
      2, one for its spl and one for the run queue lock it will release. */
  ghost predicate Inv(m: Machine) {
    && (forall c :: c in m.cur ==> CpuOk(m, c))
    && (forall t :: t in m.thr ==> ThreadOk(m, t))
    && (forall l :: l in m.holder ==> m.holder[l] in m.cur)
  }

  /** A step of processor c that changes only what belongs to c and its thread. */
  ghost predicate LocalStep(m: Machine, m': Machine, c: Cpu) {
    && c in m.cur && m'.cur == m.cur
    && m.cur[c] in m'.thr && m'.thr == m.thr[m.cur[c] := m'.thr[m.cur[c]]]
    && (forall d :: d in m.irq && d != c ==> d in m'.irq && m'.irq[d] == m.irq[d])
    && (forall d :: d != c ==> Held(m', d) == Held(m, d) && SameSpin(m, m', d))
    && (forall l :: l in m'.holder ==> m'.holder[l] in m.cur)
  }

  predicate SameSpin(m: Machine, m': Machine, d: Cpu) {
    (d in m'.spin <==> d in m.spin) && (d in m.spin ==> m'.spin[d] == m.spin[d])
  }

  /** What belongs to processor c and its thread is the same. */
  ghost predicate CpuStays(m: Machine, m': Machine, c: Cpu)
    requires c in m.cur
  {
    && c in m'.cur && m'.cur[c] == m.cur[c] && SameSpin(m, m', c) && Held(m', c) == Held(m, c)
    && (c in m.irq ==> c in m'.irq && m'.irq[c] == m.irq[c])
    && (m.cur[c] in m.thr ==> m.cur[c] in m'.thr && m'.thr[m.cur[c]] == m.thr[m.cur[c]])
  }

  /** A thread off its processor is as before, or is now on processor d. */
  predicate AwayOrOn(m: Machine, m': Machine, t: Tid, d: Cpu)
    requires t in m.thr
  {
    && t in m'.thr
    && (m'.thr[t] == m.thr[t] || (d in m'.cur && m'.cur[d] == t && m'.thr[t] == m.thr[t].(place := Running(d))))
  }

  /** What a step of processor d leaves to the others: all that is theirs, and the threads on no processor but for the
      one that d may switch to. */
  ghost predicate Leaves(m: Machine, m': Machine, d: Cpu) {
    && (forall c :: c in m.cur && c != d ==> CpuStays(m, m', c))
    && (forall t :: t in m.thr && m.thr[t].place.Away? ==> AwayOrOn(m, m', t, d))
  }

  lemma LocalKeeps(m: Machine, m': Machine, c: Cpu)
    requires Inv(m) && LocalStep(m, m', c) && CpuOk(m', c)
    ensures Inv(m') && Leaves(m, m', c)
  {
    forall d | d in m.cur && d != c ensures CpuStays(m, m', d) {
      assert CpuOk(m, d) && CpuOk(m, c);
    }
    forall d | d in m'.cur ensures CpuOk(m', d) {
      assert CpuOk(m, d) && CpuOk(m, c);
    }
    forall t | t in m'.thr ensures ThreadOk(m', t) {
      if t != m.cur[c] { assert ThreadOk(m, t); }
    }
  }

  class Kernel {
    var cur: map<Cpu, Tid>
    var irq: map<Cpu, bool>
    var thr: map<Tid, Thread>
    var holder: map<Lock, Cpu>
    var spin: map<Cpu, Lock>

    ghost function M(): Machine
      reads this
    {
      Machine(cur, irq, thr, holder, spin)
    }

    /** Before any processor is known. */
    constructor ()
      ensures Inv(M()) && M() == Machine(map[], map[], map[], map[], map[])
    {
      cur, irq, thr, holder, spin := map[], map[], map[], map[], map[];
    }

    /** cpu_create: processor c starts with interrupts off, on a thread made by thread_create. */
    method CpuCreate(c: Cpu, t: Tid)
      requires Inv(M()) && c !in cur && c !in spin && t !in thr
      modifies this`cur, this`irq, this`thr
      ensures Inv(M()) && Leaves(old(M()), M(), c) && cur == old(cur)[c := t] && irq == old(irq)[c := false]
      ensures thr == old(thr)[t := Thread(1, IPL_HIGH, Running(c), IPL_NONE)]
    {
      hide Inv, Leaves;
      ghost var m := M();
      cur, irq, thr := cur[c := t], irq[c := false], thr[t := Thread(1, IPL_HIGH, Running(c), IPL_NONE)];
      CreatedKeeps(m, M(), c, t);
      CreatedLeaves(m, M(), c, t);
    }

    /** splraise on processor c. */
    method SplRaise(c: Cpu)
      requires c in cur && cur[c] in thr
      modifies this`irq, this`thr
      ensures thr == old(thr)[cur[c] := old(thr[cur[c]]).(count := old(thr[cur[c]]).count + 1)]
      ensures irq == if old(thr[cur[c]]).count == 0 then old(irq)[c := false] else old(irq)
    {
      if thr[cur[c]].count == 0 {
        irq := irq[c := false];
      }
      thr := thr[cur[c] := thr[cur[c]].(count := thr[cur[c]].count + 1)];
    }

    /** spllower on processor c. */
    method SplLower(c: Cpu)
      requires c in cur && cur[c] in thr
      modifies this`irq, this`thr
      ensures thr == old(thr)[cur[c] := old(thr[cur[c]]).(count := old(thr[cur[c]]).count - 1)]
      ensures irq == if old(thr[cur[c]]).count == 1 then old(irq)[c := true] else old(irq)
    {
      thr := thr[cur[c] := thr[cur[c]].(count := thr[cur[c]].count - 1)];
      if thr[cur[c]].count == 0 {
        irq := irq[c := true];
      }
    }

    /** splx, and with it splhigh and spl0: the spl changes, and the count with it. */
    method SplX(c: Cpu, spl: int) returns (ret: int)
      requires Inv(M()) && c in cur && IsLevel(spl)
      modifies this`irq, this`thr
      ensures Inv(M()) && Leaves(old(M()), M(), c) && ret == old(thr[cur[c]]).curspl
      ensures thr == old(thr)[cur[c] := Thread(spl + Charges(M(), c), spl, Running(c), old(thr[cur[c]]).saved)]
    {
      hide Inv, Leaves, Held, Charges;
      ghost var m := M();
      OnCpu(m, c);
      Interrupts(m, c);
      var t := cur[c];
      if thr[t].curspl < spl {
        assert thr[t].curspl == IPL_NONE && spl == IPL_HIGH;
        SplRaise(c);
        ret := thr[t].curspl;
        thr := thr[t := thr[t].(curspl := spl)];
      } else if thr[t].curspl > spl {
        ret := thr[t].curspl;
        thr := thr[t := thr[t].(curspl := spl)];
        assert ret == IPL_HIGH && spl == IPL_NONE;
        SplLower(c);
      } else {
        ret := spl;
      }
      LevelKeeps(m, M(), c, spl);
    }

    /** spinlock_acquire up to its loop: the count goes up before the lock is had. */
    method BeginAcquire(c: Cpu, l: Lock)
      requires Inv(M()) && c in cur && c !in spin && l !in Held(M(), c)
      modifies this`irq, this`thr, this`spin
      ensures Inv(M()) && Leaves(old(M()), M(), c) && spin == old(spin)[c := l]
      ensures thr == old(thr)[cur[c] := old(thr[cur[c]]).(count := old(thr[cur[c]]).count + 1)]
    {
      hide Inv, Leaves, Charges;
      ghost var m := M();
      OnCpu(m, c);
      Interrupts(m, c);
      SplRaise(c);
      assert !(l in holder && holder[l] == c);
      spin := spin[c := l];
      ChargedKeeps(m, M(), c, l);
    }

    /** The end of spinlock_acquire: the test-and-set succeeds. */
    method FinishAcquire(c: Cpu)
      requires Inv(M()) && c in cur && c in spin && spin[c] !in holder
      modifies this`holder, this`spin
      ensures Inv(M()) && Leaves(old(M()), M(), c)
      ensures spin == old(spin) - {c} && holder == old(holder)[old(spin[c]) := c]
    {
      hide Inv, Leaves;
      ghost var m := M();
      holder, spin := holder[spin[c] := c], spin - {c};
      TakenKeeps(m, M(), c);
    }

    /** spinlock_acquire of a lock that is free. */
    method Acquire(c: Cpu, l: Lock)
      requires Inv(M()) && c in cur && c !in spin && l !in holder
      modifies this`irq, this`thr, this`spin, this`holder
      ensures Inv(M()) && spin == old(spin) && holder == old(holder)[l := c]
      ensures cur[c] in old(thr) && thr == old(thr)[cur[c] := old(thr[cur[c]]).(count := old(thr[cur[c]]).count + 1)]
      ensures Held(M(), c) == old(Held(M(), c)) + {l}
    {
      hide Inv;
      OnCpu(M(), c);
      BeginAcquire(c, l);
      FinishAcquire(c);
      assert spin == old(spin);
    }

    /** spinlock_release. */
    method Release(c: Cpu, l: Lock)
      requires Inv(M()) && c in cur && c !in spin && l in Held(M(), c)
      modifies this`irq, this`thr, this`holder
      ensures Inv(M()) && Leaves(old(M()), M(), c)
      ensures holder == old(holder) - {l} && Held(M(), c) == old(Held(M(), c)) - {l}
      ensures thr == old(thr)[cur[c] := old(thr[cur[c]]).(count := old(thr[cur[c]]).count - 1)]
    {
      hide Inv, Leaves, Held, Charges;
      ghost var m := M();
      OnCpu(m, c);
      Interrupts(m, c);
      holder := holder - {l};
      SplLower(c);
      FreedKeeps(m, M(), c, l);
    }

    /** switchframe_switch with the assignments before it: next gets the processor, run queue lock included. It may
        be the thread that is there already, when it was woken up while its processor idled on it. */
    method Switch(c: Cpu, next: Tid)
      requires Inv(M()) && c in cur && c !in spin && Held(M(), c) == {RunQueue(c)}
      requires thr[cur[c]].curspl == IPL_HIGH && IsLevel(thr[cur[c]].saved)
      requires next in thr && (next == cur[c] || thr[next].place.Away?)
      modifies this`cur, this`thr
      ensures Inv(M()) && Leaves(old(M()), M(), c) && cur == old(cur)[c := next]
      ensures thr == old(thr)[old(cur[c]) := Thread(2, IPL_HIGH, Away, old(thr[cur[c]]).saved)]
                             [next := Thread(2, IPL_HIGH, Running(c), old(thr[next]).saved)]
    {
      hide Inv, Leaves, Held, Charges;
      ghost var m := M();
      OneLock(m, c);
      OnCpu(m, c);
      AwayFacts(m, next);
      thr := thr[cur[c] := thr[cur[c]].(place := Away)][next := thr[next].(place := Running(c))];
      cur := cur[c := next];
      SwitchKeeps(m, M(), c, next);
      SwitchLeaves(m, M(), c, next);
    }

    /** thread_fork: the new thread's count includes the run queue lock it will come out holding. */
    method Fork(t: Tid)
      requires Inv(M()) && t !in thr
      modifies this`thr
      ensures Inv(M()) && thr == old(thr)[t := Thread(2, IPL_HIGH, Away, IPL_NONE)]
      ensures forall d :: Leaves(old(M()), M(), d)
    {
      hide Inv, Leaves;
      ghost var m := M();
      var count := 1;
      count := count + 1;
      thr := thr[t := Thread(count, IPL_HIGH, Away, IPL_NONE)];
      ForkedKeeps(m, M(), t);
    }

    /** thread_switch up to waiting for the run queue lock, which another processor may hold. */
    method BeginSwitch(c: Cpu) returns (spl: int)
      requires Inv(M()) && c in cur && c !in spin && RunQueue(c) !in Held(M(), c)
      modifies this`irq, this`thr, this`spin
      ensures Inv(M()) && spin == old(spin)[c := RunQueue(c)]
      ensures cur[c] in old(thr) && spl == old(thr[cur[c]]).curspl && IsLevel(spl)
      ensures thr == old(thr)[cur[c] := Thread(IPL_HIGH + Charges(M(), c), IPL_HIGH, Running(c), spl)]
    {
      hide Inv, Held, Charges;
      OnCpu(M(), c);
      ghost var m := M();
      spl := SplX(c, IPL_HIGH);
      SameHeld(m, M(), c);
      Remember(c, spl);
      SameHeld(m, M(), c);
      BeginAcquire(c, RunQueue(c));
      OnCpu(M(), c);
    }

    /** The local variable that keeps the level across the switch. */
    method Remember(c: Cpu, spl: int)
      requires Inv(M()) && c in cur
      modifies this`thr
      ensures Inv(M()) && Leaves(old(M()), M(), c)
      ensures cur[c] in old(thr) && thr == old(thr)[cur[c] := old(thr[cur[c]]).(saved := spl)]
    {
      ghost var m := M();
      assert CpuOk(m, c);
      thr := thr[cur[c] := thr[cur[c]].(saved := spl)];
      assert Held(M(), c) == Held(m, c);
      LocalKeeps(m, M(), c);
    }

    /** Once the run queue lock is free: it is taken, and a thread that goes to sleep, by now on the wait channel's
        list, lets go of that channel's lock wc. */
    method EnterSwitch(c: Cpu, wc: Option<Lock>)
      requires Inv(M()) && c in cur && c in spin && spin[c] == RunQueue(c) && RunQueue(c) !in holder
      requires HoldsOnly(M(), c, wc) && thr[cur[c]].curspl == IPL_HIGH
      modifies this`irq, this`thr, this`spin, this`holder
      ensures Inv(M()) && spin == old(spin) - {c} && Held(M(), c) == {RunQueue(c)}
      ensures cur[c] in old(thr)
      ensures thr == old(thr)[cur[c] := Thread(2, IPL_HIGH, Running(c), old(thr[cur[c]]).saved)]
    {
      hide Inv, Charges;
      OnCpu(M(), c);
      ghost var m := M();
      FinishAcquire(c);
      HeldMore(m, M(), c);
      if wc.Some? {
        Release(c, wc.value);
        assert {wc.value} + {RunQueue(c)} - {wc.value} == {RunQueue(c)};
      }
      OneLock(M(), c);
      OnCpu(M(), c);
    }

    /** One turn of the idle loop: the run queue lock is given up and taken again. */
    method Idle(c: Cpu)
      requires Inv(M()) && c in cur && c !in spin && Held(M(), c) == {RunQueue(c)}
      modifies this
      ensures Inv(M()) && cur == old(cur) && thr == old(thr) && Held(M(), c) == {RunQueue(c)} && spin == old(spin)
    {
      hide Inv;
      OnCpu(M(), c);
      Release(c, RunQueue(c));
      assert Held(M(), c) == {};
      Acquire(c, RunQueue(c));
      assert thr == old(thr) && spin == old(spin);
    }

    /** The tail of thread_switch, and the head of thread_startup, in the thread switched to: the lock another thread
        took is released, and nothing is left over but the level it had. */
    method LeaveSwitch(c: Cpu)
      requires Inv(M()) && c in cur && c !in spin && Held(M(), c) == {RunQueue(c)} && IsLevel(thr[cur[c]].saved)
      modifies this
      ensures Inv(M()) && cur == old(cur) && Held(M(), c) == {} && spin == old(spin) && cur[c] in old(thr)
      ensures var spl := old(thr[cur[c]]).saved;
              thr == old(thr)[cur[c] := Thread(spl, spl, Running(c), spl)] && c in irq && (irq[c] <==> spl == IPL_NONE)
    {
      hide Inv, Held, Charges;
      OnCpu(M(), c);
      ghost var saved := thr[cur[c]].saved;
      Release(c, RunQueue(c));
      ghost var m := M();
      var _ := SplX(c, thr[cur[c]].saved);
      SameHeld(m, M(), c);
      NoLock(M(), c);
      assert CpuOk(M(), c) by { Interrupts(M(), c); }
    }

    /** A switch on processor c, from having the run queue lock free to the end in the thread switched to, which may
        be the same one. Both counts balance although one thread took the lock and another releases it; the thread
        switched to has the level it entered its own switch with, and so will the other. */
    method SwitchTo(c: Cpu, wc: Option<Lock>, next: Tid)
      requires Inv(M()) && c in cur && c in spin && spin[c] == RunQueue(c) && RunQueue(c) !in holder
      requires HoldsOnly(M(), c, wc) && thr[cur[c]].curspl == IPL_HIGH && IsLevel(thr[cur[c]].saved)
      requires next in thr && (next == cur[c] || thr[next].place.Away?)
      modifies this
      ensures Inv(M()) && cur == old(cur)[c := next] && Held(M(), c) == {} && spin == old(spin) - {c}
      ensures var spl := old(thr[next]).saved;
              && thr == old(thr)[old(cur[c]) := Thread(2, IPL_HIGH, Away, old(thr[cur[c]]).saved)]
                                [next := Thread(spl, spl, Running(c), spl)]
              && c in irq && (irq[c] <==> spl == IPL_NONE)
    {
      hide Inv, Held, Charges;
      OnCpu(M(), c);
      SavedLevel(M(), next, c);
      EnterSwitch(c, wc);
      ghost var m := M();
      Switch(c, next);
      SameHeld(m, M(), c);
      LeaveSwitch(c);
      ghost var spl := old(thr[next]).saved;
      assert thr == old(thr)[old(cur[c]) := Thread(2, IPL_HIGH, Away, old(thr[cur[c]]).saved)]
                            [next := Thread(spl, spl, Running(c), spl)];
    }
  }

  /** Processor c holds the wait channel lock it is going to sleep with, or nothing. */
  ghost predicate HoldsOnly(m: Machine, c: Cpu, wc: Option<Lock>) {
    if wc.Some? then wc.value.Other? && Held(m, c) == {wc.value} else Held(m, c) == {}
  }

  /** Processor c waits for a lock, with what it is about to do. */
  ghost predicate Waits(m: Machine, c: Cpu, t: Tid, th: Thread, l: Lock, wc: Option<Lock>) {
    && c in m.cur && m.cur[c] == t && t in m.thr && m.thr[t] == th && c in m.spin && m.spin[c] == l
    && HoldsOnly(m, c, wc)
  }

  /** A run: step i was one of processor ds[i]. */
  ghost predicate IsRun(ms: seq<Machine>, ds: seq<Cpu>) {
    && |ms| == |ds| + 1 && (forall i :: 0 <= i < |ms| ==> Inv(ms[i]))
    && forall i :: 0 <= i < |ds| ==> StepOf(ms, ds, i)
  }

  ghost predicate StepOf(ms: seq<Machine>, ds: seq<Cpu>, i: int)
    requires 0 <= i < |ds| && |ms| == |ds| + 1
  {
    Leaves(ms[i], ms[i + 1], ds[i])
  }

  lemma Earlier(ms: seq<Machine>, ds: seq<Cpu>)
    requires IsRun(ms, ds) && ds != []
    ensures IsRun(ms[..|ds|], ds[..|ds| - 1])
  {
    var before, steps := ms[..|ds|], ds[..|ds| - 1];
    forall i | 0 <= i < |steps| ensures StepOf(before, steps, i) {
      assert StepOf(ms, ds, i);
    }
  }

  /** While c waits for its run queue lock, steps of other processors, switches, forks and new processors included,
      change nothing of what it is about to do. */
  lemma {:induction false} WaitingStays(ms: seq<Machine>, ds: seq<Cpu>, c: Cpu, t: Tid, th: Thread, l: Lock,
                                        wc: Option<Lock>)
    requires IsRun(ms, ds) && c !in ds && Waits(ms[0], c, t, th, l, wc)
    ensures Waits(ms[|ds|], c, t, th, l, wc)
  {
    if ds != [] {
      var n := |ds| - 1;
      Earlier(ms, ds);
      WaitingStays(ms[..n + 1], ds[..n], c, t, th, l, wc);
      assert StepOf(ms, ds, n) && CpuStays(ms[n], ms[n + 1], c);
    }
  }

  /** A thread that is away keeps its count and its level, whatever all processors do short of switching to it. */
  lemma {:induction false} AwayStays(ms: seq<Machine>, ds: seq<Cpu>, t: Tid)
    requires IsRun(ms, ds) && t in ms[0].thr && ms[0].thr[t].place.Away?
    requires forall i :: 0 <= i < |ms| ==> !IsOn(ms[i], t)
    ensures t in ms[|ds|].thr && ms[|ds|].thr[t] == ms[0].thr[t] && ms[0].thr[t].count == 2
  {
    AwayFacts(ms[0], t);
    if ds != [] {
      var n := |ds| - 1;
      var before := ms[..n + 1];
      forall i | 0 <= i < |before| ensures !IsOn(before[i], t) {
        assert !IsOn(ms[i], t);
      }
      Earlier(ms, ds);
      AwayStays(before, ds[..n], t);
      assert StepOf(ms, ds, n) && AwayOrOn(ms[n], ms[n + 1], t, ds[n]) && !IsOn(ms[n + 1], t);
    }
  }

  predicate IsOn(m: Machine, t: Tid) { t in m.thr && m.thr[t].place.Running? }

  lemma AwayFacts(m: Machine, t: Tid)
    requires Inv(m) && t in m.thr
    ensures m.thr[t].place.Away? ==> m.thr[t] == Thread(2, IPL_HIGH, Away, m.thr[t].saved)
  {
    assert ThreadOk(m, t);
  }

  /** An acquisition is charged before the lock is had. */
  lemma ChargedKeeps(m: Machine, m': Machine, c: Cpu, l: Lock)
    requires Inv(m) && c in m.cur && c !in m.spin && m.cur[c] in m.thr
    requires m' == m.(spin := m.spin[c := l], thr := m'.thr, irq := m'.irq)
    requires m'.thr == m.thr[m.cur[c] := m.thr[m.cur[c]].(count := m.thr[m.cur[c]].count + 1)]
    requires m'.irq == if m.thr[m.cur[c]].count == 0 then m.irq[c := false] else m.irq
    ensures Inv(m') && Leaves(m, m', c)
  {
    assert CpuOk(m, c);
    forall d ensures Held(m', d) == Held(m, d) { SameHeld(m, m', d); }
    LocalKeeps(m, m', c);
  }

  lemma CreatedKeeps(m: Machine, m': Machine, c: Cpu, t: Tid)
    requires Inv(m) && c !in m.cur && c !in m.spin && t !in m.thr
    requires m' == m.(cur := m.cur[c := t], irq := m.irq[c := false],
                      thr := m.thr[t := Thread(1, IPL_HIGH, Running(c), IPL_NONE)])
    ensures Inv(m')
  {
    forall d | d in m'.cur ensures CpuOk(m', d) {
      SameHeld(m, m', d);
      if d == c { assert Held(m, c) == {}; } else { assert CpuOk(m, d); }
    }
    forall u | u in m'.thr ensures ThreadOk(m', u) {
      if u != t { assert ThreadOk(m, u); }
    }
  }

  lemma CreatedLeaves(m: Machine, m': Machine, c: Cpu, t: Tid)
    requires Inv(m) && c !in m.cur && c !in m.spin && t !in m.thr
    requires m' == m.(cur := m.cur[c := t], irq := m.irq[c := false],
                      thr := m.thr[t := Thread(1, IPL_HIGH, Running(c), IPL_NONE)])
    ensures Leaves(m, m', c)
  {
    hide Held;
    forall d | d in m.cur && d != c ensures CpuStays(m, m', d) {
      SameHeld(m, m', d);
    }
  }

  lemma ForkedKeeps(m: Machine, m': Machine, t: Tid)
    requires Inv(m) && t !in m.thr && m' == m.(thr := m.thr[t := Thread(2, IPL_HIGH, Away, IPL_NONE)])
    ensures Inv(m') && forall d :: Leaves(m, m', d)
  {
    forall c | c in m.cur ensures CpuOk(m', c) && CpuStays(m, m', c) {
      SameHeld(m, m', c);
      assert CpuOk(m, c);
    }
    forall u | u in m'.thr ensures ThreadOk(m', u) {
      if u != t { assert ThreadOk(m, u); }
    }
  }

  lemma TakenKeeps(m: Machine, m': Machine, c: Cpu)
    requires Inv(m) && c in m.cur && c in m.spin && m.spin[c] !in m.holder
    requires m' == m.(holder := m.holder[m.spin[c] := c], spin := m.spin - {c})
    ensures Inv(m') && Leaves(m, m', c)
  {
    hide Held;
    LockTaken(m, m', c, m.spin[c]);
    assert CpuOk(m, c);
    LocalKeeps(m, m', c);
  }

  lemma LockTaken(m: Machine, m': Machine, c: Cpu, l: Lock)
    requires l !in m.holder && m'.holder == m.holder[l := c]
    ensures l !in Held(m, c) && Held(m', c) == Held(m, c) + {l} && forall d :: d != c ==> Held(m', d) == Held(m, d)
  {
  }

  lemma LockFreed(m: Machine, m': Machine, c: Cpu, l: Lock)
    requires l in Held(m, c) && m'.holder == m.holder - {l}
    ensures Held(m', c) == Held(m, c) - {l} && forall d :: d != c ==> Held(m', d) == Held(m, d)
  {
  }

  /** A lock and its charge are given up together. */
  lemma FreedKeeps(m: Machine, m': Machine, c: Cpu, l: Lock)
    requires Inv(m) && c in m.cur && c !in m.spin && l in Held(m, c) && m.cur[c] in m.thr
    requires m' == m.(holder := m.holder - {l}, thr := m'.thr, irq := m'.irq)
    requires m'.thr == m.thr[m.cur[c] := m.thr[m.cur[c]].(count := m.thr[m.cur[c]].count - 1)]
    requires m'.irq == if m.thr[m.cur[c]].count == 1 then m.irq[c := true] else m.irq
    ensures Inv(m') && Leaves(m, m', c) && Held(m', c) == Held(m, c) - {l}
  {
    hide Held, Charges;
    LockFreed(m, m', c, l);
    FewerCharges(m, m', c, l);
    assert CpuOk(m, c);
    StillHeldHere(m, m', l);
    LocalKeeps(m, m', c);
  }

  lemma FewerCharges(m: Machine, m': Machine, c: Cpu, l: Lock)
    requires l in Held(m, c) && Held(m', c) == Held(m, c) - {l} && m'.spin == m.spin
    ensures Charges(m', c) == Charges(m, c) - 1
  {
    hide Held;
  }

  lemma StillHeldHere(m: Machine, m': Machine, l: Lock)
    requires Inv(m) && m'.holder == m.holder - {l}
    ensures forall k :: k in m'.holder ==> m'.holder[k] in m.cur
  {
  }

  lemma HeldMore(m: Machine, m': Machine, c: Cpu)
    requires c in m.spin && m'.holder == m.holder[m.spin[c] := c]
    ensures Held(m', c) == Held(m, c) + {m.spin[c]}
  {
  }

  lemma SavedLevel(m: Machine, t: Tid, c: Cpu)
    requires Inv(m) && c in m.cur && t in m.thr && (m.thr[t].place.Away? || t == m.cur[c])
    ensures m.thr[t].place.Away? ==> IsLevel(m.thr[t].saved) && t != m.cur[c]
  {
    assert CpuOk(m, c) && ThreadOk(m, t);
  }

  /** A change of spl that takes the count along with it, and the interrupts with the count. */
  lemma LevelKeeps(m: Machine, m': Machine, c: Cpu, spl: int)
    requires Inv(m) && c in m.cur && m.cur[c] in m.thr && IsLevel(spl) && m' == m.(thr := m'.thr, irq := m'.irq)
    requires m'.thr == m.thr[m.cur[c] := Thread(spl + Charges(m, c), spl, Running(c), m.thr[m.cur[c]].saved)]
    requires c in m'.irq && m'.irq == m.irq[c := m'.irq[c]] && (m'.irq[c] <==> spl + Charges(m, c) == 0)
    ensures Inv(m') && Leaves(m, m', c) && Charges(m', c) == Charges(m, c)
  {
    assert CpuOk(m, c) && Held(m', c) == Held(m, c);
    LocalKeeps(m, m', c);
  }

  lemma SameHeld(m: Machine, m': Machine, c: Cpu)
    requires m'.holder == m.holder
    ensures Held(m', c) == Held(m, c)
  {
  }

  lemma OneLock(m: Machine, c: Cpu)
    requires Held(m, c) == {RunQueue(c)} && c !in m.spin
    ensures Charges(m, c) == 1
  {
  }

  lemma NoLock(m: Machine, c: Cpu)
    requires Held(m, c) == {} && c !in m.spin
    ensures Charges(m, c) == 0
  {
  }

  lemma Interrupts(m: Machine, c: Cpu)
    requires Inv(m) && c in m.cur
    ensures CpuOk(m, c)
  {
  }

  lemma OnCpu(m: Machine, c: Cpu)
    requires Inv(m) && c in m.cur
    ensures m.cur[c] in m.thr && c in m.irq && IsLevel(m.thr[m.cur[c]].curspl)
    ensures var t := m.thr[m.cur[c]]; t == Thread(t.curspl + Charges(m, c), t.curspl, Running(c), t.saved)
  {
    assert CpuOk(m, c);
  }

  lemma SwitchKeeps(m: Machine, m': Machine, c: Cpu, next: Tid)
    requires Inv(m) && c in m.cur && c !in m.spin && Held(m, c) == {RunQueue(c)}
    requires m.cur[c] in m.thr && m.thr[m.cur[c]].curspl == IPL_HIGH && IsLevel(m.thr[m.cur[c]].saved)
    requires next in m.thr && (next == m.cur[c] || m.thr[next].place.Away?)
    requires m' == m.(cur := m.cur[c := next],
                      thr := m.thr[m.cur[c] := m.thr[m.cur[c]].(place := Away)]
                                  [next := m.thr[next].(place := Running(c))])
    ensures Inv(m')
  {
    assert CpuOk(m, c) && ThreadOk(m, next);
    forall d | d in m'.cur ensures CpuOk(m', d) {
      assert CpuOk(m, d);
      assert Held(m', d) == Held(m, d);
    }
    forall t | t in m'.thr ensures ThreadOk(m', t) {
      assert ThreadOk(m, t);
    }
  }

  lemma SwitchLeaves(m: Machine, m': Machine, c: Cpu, next: Tid)
    requires Inv(m) && c in m.cur && c !in m.spin && Held(m, c) == {RunQueue(c)}
    requires m.cur[c] in m.thr && m.thr[m.cur[c]].curspl == IPL_HIGH && IsLevel(m.thr[m.cur[c]].saved)
    requires next in m.thr && (next == m.cur[c] || m.thr[next].place.Away?)
    requires m' == m.(cur := m.cur[c := next],
                      thr := m.thr[m.cur[c] := m.thr[m.cur[c]].(place := Away)]
                                  [next := m.thr[next].(place := Running(c))])
    ensures Leaves(m, m', c)
  {
    hide Held;
    assert CpuOk(m, c) && ThreadOk(m, next);
    forall d | d in m.cur && d != c ensures CpuStays(m, m', d) {
      SameHeld(m, m', d);
      assert CpuOk(m, d);
    }
    forall t | t in m.thr && m.thr[t].place.Away? ensures AwayOrOn(m, m', t, c) {
      assert ThreadOk(m, t);
    }
  }
}
