/**
 Moving threads between the run queues of processors
 (thread_consider_migration and schedule in kern/thread/thread.c).
 */
module Migration {
  import opened Common
  import opened ThreadList

  function CpuOf(cpu: map<nat, nat>, t: nat): nat { if t in cpu then cpu[t] else 0 }

  /** The lists (run queue i is list i, and list n holds the victims), t_cpu of each thread, and the threads
      that are ready to run. */
  datatype Sys = Sys(c: Contents, cpu: map<nat, nat>, ready: set<nat>)

  /** The processor that the threads of a list belong to. */
  function Home(l: nat, n: nat, me: nat): nat { if l == n then me else l }

  ghost predicate AtHome(s: Sys, n: nat, me: nat, l: nat) {
    l in s.c ==> forall t :: t in s.c[l] ==> CpuOf(s.cpu, t) == Home(l, n, me)
  }

  /** Every ready thread is on some list, a thread on a list is ready, and t_cpu agrees with the list. */
  ghost predicate Inv(s: Sys, n: nat, me: nat, cur: nat) {
    && me < n && (forall l :: l < n ==> l in s.c) && (forall l :: l in s.c ==> l <= n)
    && Apart(s.c) && (forall l :: AtHome(s, n, me, l))
    && (forall t :: t in s.ready <==> !Off(s.c, t))
    && CpuOf(s.cpu, cur) == me
  }

  lemma OnListIsReady(s: Sys, n: nat, me: nat, cur: nat, l: nat, t: nat)
    requires Inv(s, n, me, cur) && l in s.c && t in s.c[l]
    ensures t in s.ready && CpuOf(s.cpu, t) == Home(l, n, me)
  {
    assert AtHome(s, n, me, l);
  }

  /** t left list a for list b, and now belongs where list b does. */
  lemma Shifted(s: Sys, s': Sys, n: nat, me: nat, cur: nat, a: nat, b: nat, t: nat)
    requires Inv(s, n, me, cur) && a in s.c && b in s.c && a != b && t in s.c[a] && Apart(s'.c) && s'.c.Keys == s.c.Keys
    requires forall x :: x in s'.c[a] <==> x in s.c[a] && x != t
    requires forall x :: x in s'.c[b] <==> x in s.c[b] || x == t
    requires forall l :: l in s.c && l != a && l != b ==> s'.c[l] == s.c[l]
    requires forall x :: CpuOf(s'.cpu, x) == if x == t then Home(b, n, me) else CpuOf(s.cpu, x)
    requires s'.ready == s.ready && (t == cur ==> Home(b, n, me) == me)
    ensures Inv(s', n, me, cur)
  {
    forall l ensures AtHome(s', n, me, l) {
      assert AtHome(s, n, me, l);
      assert AtHome(s, n, me, a);
      if l in s'.c {
        assert l != a && l != b ==> t !in s'.c[l];
      }
    }
    forall x ensures x in s'.ready <==> !Off(s'.c, x) {
      SameOff(s.c, s'.c, a, b, t, x);
    }
  }

  lemma SameOff(c: Contents, c': Contents, a: nat, b: nat, t: nat, x: nat)
    requires a in c && b in c && a != b && t in c[a] && c'.Keys == c.Keys
    requires forall x :: x in c'[a] <==> x in c[a] && x != t
    requires forall x :: x in c'[b] <==> x in c[b] || x == t
    requires forall l :: l in c && l != a && l != b ==> c'[l] == c[l]
    ensures Off(c', x) == Off(c, x)
  {
    if x == t {
      assert x in c'[b];
    } else {
      assert forall l :: l in c ==> (x in c'[l] <==> x in c[l]);
    }
  }

  // ---------------------------------------------------------------- what other processors do

  /** Another processor puts a thread that is on no list on a run queue, or takes one off its own. */
  datatype Event = Give(thread: nat, cpu: nat) | Take(thread: nat)

  ghost predicate Quiet(script: seq<seq<Event>>) { forall i :: 0 <= i < |script| ==> script[i] == [] }

  /** The ready threads after some events. */
  ghost function ReadyAfter(ready: set<nat>, history: seq<Event>): set<nat> {
    if history == [] then ready
    else
      var before, e := ReadyAfter(ready, history[..|history| - 1]), history[|history| - 1];
      if e.Give? then before + {e.thread} else before - {e.thread}
  }

  lemma AppendEvent(ready: set<nat>, history: seq<Event>, e: Event)
    ensures ReadyAfter(ready, history + [e])
            == if e.Give? then ReadyAfter(ready, history) + {e.thread} else ReadyAfter(ready, history) - {e.thread}
  {
    assert (history + [e])[..|history|] == history;
  }

  lemma GiveInv(s: Sys, n: nat, me: nat, cur: nat, t: nat, d: nat)
    requires Inv(s, n, me, cur) && d < n && Off(s.c, t) && (t == cur ==> d == me)
    ensures Inv(Sys(s.c[d := s.c[d] + [t]], s.cpu[t := d], s.ready + {t}), n, me, cur)
  {
    var s' := Sys(s.c[d := s.c[d] + [t]], s.cpu[t := d], s.ready + {t});
    assert Inserted(s.c[d], |s.c[d]|, t) == s.c[d] + [t];
    InsertApart(s.c, d, |s.c[d]|, t);
    forall l ensures AtHome(s', n, me, l) {
      assert AtHome(s, n, me, l);
    }
    forall x ensures x in s'.ready <==> !Off(s'.c, x) {
      if x == t {
        assert x in s'.c[d];
      } else {
        assert forall l :: l in s.c ==> (x in s'.c[l] <==> x in s.c[l]);
      }
    }
  }

  lemma TakeInv(s: Sys, n: nat, me: nat, cur: nat, t: nat, d: nat)
    requires Inv(s, n, me, cur) && d < n && t in s.c[d]
    ensures Inv(Sys(s.c[d := Removed(s.c[d], IndexOf(s.c[d], t))], s.cpu, s.ready - {t}), n, me, cur)
  {
    var k := IndexOf(s.c[d], t);
    var s' := Sys(s.c[d := Removed(s.c[d], k)], s.cpu, s.ready - {t});
    RemoveApart(s.c, d, k);
    forall x ensures x in s'.c[d] <==> x in s.c[d] && x != t { RemovedElements(s.c[d], k, x); }
    forall l ensures AtHome(s', n, me, l) {
      assert AtHome(s, n, me, l);
    }
    forall x ensures x in s'.ready <==> !Off(s'.c, x) {
      if x == t {
        assert forall l :: l in s.c && l != d ==> t !in s.c[l];
      } else {
        assert forall l :: l in s.c ==> (x in s'.c[l] <==> x in s.c[l]);
      }
    }
  }

  /** The run queues, the thread that this processor runs, and what other processors are going to do at each
      point where this one waits for a run queue lock. */
  class Machine {
    const lists: Lists
    const numcpus: nat
    const me: nat
    const curthread: nat
    const priority: nat -> int
    var cpu: map<nat, nat>
    var script: seq<seq<Event>>
    /** switch_fl: whether the next reshuffle goes by priority. */
    var byPriority: bool
    /** The threads ready at the start, and the events since then. */
    ghost const start: set<nat>
    ghost var history: seq<Event>

    constructor (lists: Lists, numcpus: nat, me: nat, curthread: nat, priority: nat -> int, cpu: map<nat, nat>,
                 script: seq<seq<Event>>, ghost ready: set<nat>)
      requires lists.Valid() && Inv(Sys(lists.c, cpu, ready), numcpus, me, curthread)
      ensures Valid() && this.lists == lists && S() == Sys(lists.c, cpu, ready) && this.script == script
    {
      this.lists, this.numcpus, this.me, this.curthread, this.priority := lists, numcpus, me, curthread, priority;
      this.cpu, this.script, this.start, this.history, this.byPriority := cpu, script, ready, [], false;
    }

    ghost function S(): Sys
      reads this, lists
    {
      Sys(lists.c, cpu, ReadyAfter(start, history))
    }

    ghost predicate Valid()
      reads this, lists
    {
      lists.Valid() && Inv(S(), numcpus, me, curthread)
    }

    /** No migration is going on: all ready threads are on run queues. */
    ghost predicate Settled()
      reads this, lists
    {
      Valid() && numcpus !in lists.c
    }

    /** Another processor runs thread_make_runnable, or ends its migration. */
    method PutOn(t: nat, d: nat)
      requires Valid()
      modifies this`cpu, this`history, lists
      ensures Valid() && Meanwhile(old(S()), S(), numcpus, me) && old(history) <= history
    {
      hide Linked, Inv, ReadyAfter, Off;
      ghost var s := S();
      ListsThere(s, numcpus, me, curthread);
      OffUnlinked(lists.next, lists.prev, lists.c, t);
      if d < numcpus && Get(lists.prev, Of(t)) == Null && (t != curthread || d == me) {
        GiveInv(s, numcpus, me, curthread, t, d);
        AppendEvent(start, history, Give(t, d));
        cpu, history := cpu[t := d], history + [Give(t, d)];
        lists.AddTail(d, t);
      }
    }

    /** Another processor runs thread_switch, or starts its migration. */
    method TakeOff(t: nat)
      requires Valid()
      modifies this`history, lists
      ensures Valid() && Meanwhile(old(S()), S(), numcpus, me) && old(history) <= history
    {
      hide Linked, Inv, ReadyAfter, Off, Removed;
      ghost var s := S();
      ListsThere(s, numcpus, me, curthread);
      OffUnlinked(lists.next, lists.prev, lists.c, t);
      var d := CpuOf(cpu, t);
      if Get(lists.prev, Of(t)) != Null && d != me {
        WhichList(s, numcpus, me, curthread, t);
        TakeInv(s, numcpus, me, curthread, t, d);
        AppendEvent(start, history, Take(t));
        history := history + [Take(t)];
        lists.Remove(d, t);
      }
    }

    /** Waiting for a run queue lock: other processors do what they do. */
    method Acquire()
      requires Valid()
      modifies this`cpu, this`history, this`script, lists
      ensures Valid() && Meanwhile(old(S()), S(), numcpus, me) && old(history) <= history
      ensures Quiet(old(script)) ==> S() == old(S()) && history == old(history) && Quiet(script)
    {
      hide Linked, Inv, ReadyAfter;
      ListsThere(S(), numcpus, me, curthread);
      if script == [] {
        return;
      }
      var batch := script[0];
      assert Quiet(script) ==> batch == [];
      script := script[1..];
      for i := 0 to |batch|
        invariant Valid() && Meanwhile(old(S()), S(), numcpus, me)
        invariant (i == 0 ==> S() == old(S()) && history == old(history))
        invariant script == old(script)[1..] && old(history) <= history
      {
        match batch[i] {
          case Give(t, d) => PutOn(t, d);
          case Take(t) => TakeOff(t);
        }
      }
    }

    /** Takes one thread with the lowest priority value off our queue and puts it first among the victims. */
    method PickVictim() returns (t: nat)
      requires Valid() && numcpus in lists.c && lists.c[me] != []
      modifies lists
      ensures Valid() && FirstLowest(old(lists.c[me]), priority, t)
      ensures lists.c == old(lists.c)[me := Removed(old(lists.c)[me], IndexOf(old(lists.c)[me], t))]
                                     [numcpus := [t] + old(lists.c)[numcpus]]
    {
      hide Linked, Inv, Removed;
      ghost var s := S();
      ListsThere(s, numcpus, me, curthread);
      t := lists.FindLowest(me, priority);
      ghost var k := IndexOf(lists.c[me], t);
      Detached(s, numcpus, me, curthread, me, t);
      lists.Remove(me, t);
      lists.AddHead(numcpus, t);
      ToVictims(s, numcpus, me, curthread, t, lists.next, lists.prev);
    }

    /** The threads sent away: as many as asked for, none with a higher priority value than one that stays. */
    method SelectVictims(count: nat)
      requires Valid() && numcpus in lists.c && lists.c[numcpus] == [] && count <= |lists.c[me]|
      modifies lists
      ensures Valid() && lists.c.Keys == old(lists.c.Keys)
      ensures |lists.c[numcpus]| == count && |lists.c[me]| == |old(lists.c[me])| - count
      ensures forall l :: l in lists.c && l != me && l != numcpus ==> lists.c[l] == old(lists.c[l])
      ensures Lowest(lists.c[numcpus], lists.c[me], priority)
    {
      hide Linked, Inv, Removed, FirstLowest;
      ListsThere(S(), numcpus, me, curthread);
      for i := 0 to count
        invariant Valid() && lists.c.Keys == old(lists.c.Keys)
        invariant |lists.c[numcpus]| == i && |lists.c[me]| == |old(lists.c[me])| - i
        invariant forall l :: l in lists.c && l != me && l != numcpus ==> lists.c[l] == old(lists.c[l])
        invariant Lowest(lists.c[numcpus], lists.c[me], priority)
      {
        ghost var c := lists.c;
        var t := PickVictim();
        StillLowest(c[numcpus], c[me], priority, t);
      }
    }

    /** Takes the first victim: it goes to processor i, unless it is the thread that runs here. */
    method SendOne(i: nat) returns (kept: bool)
      requires Valid() && numcpus in lists.c && lists.c[numcpus] != [] && i < numcpus && i != me
      modifies this`cpu, lists
      ensures Valid() && kept == (old(lists.c)[numcpus][0] == curthread)
      ensures var v := old(lists.c)[numcpus];
              lists.c == if kept then old(lists.c)[numcpus := v[1..] + [v[0]]]
                         else old(lists.c)[numcpus := v[1..]][i := old(lists.c)[i] + [v[0]]]
    {
      hide Linked, Inv;
      ghost var s := S();
      ghost var v := s.c[numcpus];
      ListsThere(s, numcpus, me, curthread);
      FirstDetached(s, numcpus, me, curthread, numcpus);
      var r := lists.RemHead(numcpus);
      var t := r.value;
      if t == curthread {
        lists.AddTail(numcpus, t);
        assert lists.c == s.c[numcpus := v[1..] + [t]];
        Reordered(s, numcpus, me, curthread, numcpus, v[1..] + [t], lists.next, lists.prev);
        return true;
      }
      cpu := cpu[t := i];
      lists.AddTail(i, t);
      HeadTo(s, numcpus, me, curthread, i, cpu, lists.next, lists.prev);
      kept := false;
    }

    /** The inner loop: fills the queue of processor i up to one share, while there are threads to send. */
    method FillCpu(i: nat, share: nat, count: nat) returns (left: nat)
      requires Valid() && numcpus in lists.c && i < numcpus && i != me && VictimsOk(lists.c[numcpus], count, curthread)
      modifies this`cpu, lists
      ensures Valid() && Filled(old(lists.c), lists.c, numcpus, i, share, count, left)
      ensures VictimsOk(lists.c[numcpus], left, curthread)
      ensures lists.c.Keys == old(lists.c.Keys) && lists.c[me] == old(lists.c[me])
      ensures (left == 0 || |lists.c[i]| >= share)
    {
      hide Linked, Inv, Filled, VictimsOk, Apart;
      ListsThere(S(), numcpus, me, curthread);
      left := count;
      NothingFilled(lists.c, numcpus, i, share, count);
      while lists.count[i] < share && left > 0
        invariant Valid() && lists.c.Keys == old(lists.c.Keys)
        invariant 0 <= left <= count && Filled(old(lists.c), lists.c, numcpus, i, share, count, left)
        invariant VictimsOk(lists.c[numcpus], left, curthread)
        decreases left
      {
        ghost var c := lists.c;
        NoRepeat(S(), numcpus, me, curthread, numcpus);
        SomeVictim(c[numcpus], left, curthread);
        var kept := SendOne(i);
        FilledMore(old(lists.c), c, lists.c, numcpus, i, share, count, left, kept);
        VictimsStill(c[numcpus], left, curthread, kept);
        left := left - 1;
      }
      FilledApart(old(lists.c), lists.c, numcpus, i, share, count, left, me);
    }

    /** The first pass: how many threads wait here, and everywhere. */
    method CountQueues() returns (mine: nat, total: nat)
      requires Valid()
      modifies this`cpu, this`history, this`script, lists
      ensures Valid() && Meanwhile(old(S()), S(), numcpus, me) && old(history) <= history && mine <= |lists.c[me]|
      ensures Quiet(old(script)) ==> S() == old(S()) && history == old(history) && Quiet(script)
      ensures Quiet(old(script)) ==> mine == |lists.c[me]| && total == Total(lists.c, numcpus)
    {
      hide Linked, Inv, ReadyAfter;
      ListsThere(S(), numcpus, me, curthread);
      mine, total := 0, 0;
      for i := 0 to numcpus
        invariant Valid() && Meanwhile(old(S()), S(), numcpus, me) && old(history) <= history
        invariant i > me ==> mine <= |lists.c[me]|
        invariant Quiet(old(script)) ==> S() == old(S()) && history == old(history) && Quiet(script)
        invariant Quiet(old(script)) ==> (i > me ==> mine == |lists.c[me]|) && total == Total(lists.c, i)
      {
        Acquire();
        total := total + lists.count[i];
        if i == me {
          mine := lists.count[i];
        }
      }
    }

    /** The second pass: the victims go to the other processors. */
    method Distribute(share: nat, count: nat) returns (left: nat)
      requires Valid() && numcpus in lists.c && VictimsOk(lists.c[numcpus], count, curthread)
      modifies this`cpu, this`history, this`script, lists
      ensures Valid() && lists.c.Keys == old(lists.c.Keys) && old(history) <= history && old(lists.c[me]) <= lists.c[me]
      ensures VictimsOk(lists.c[numcpus], left, curthread)
      ensures Quiet(old(script)) ==> history == old(history) && Quiet(script)
      ensures Quiet(old(script)) ==> Spread(old(lists.c), lists.c, numcpus, me, share)
      ensures Quiet(old(script)) && count <= Room(old(lists.c), 0, numcpus, me, share) ==> left == 0
    {
      hide Linked, Inv, ReadyAfter, Filled, VictimsOk, Spread, Room, SpreadTo, Quiet;
      ListsThere(S(), numcpus, me, curthread);
      NothingSpread(lists.c, numcpus, me, share, count);
      left := count;
      var i := 0;
      while i < numcpus && left > 0
        invariant 0 <= i <= numcpus && Valid() && lists.c.Keys == old(lists.c.Keys) && old(history) <= history
        invariant old(lists.c[me]) <= lists.c[me] && VictimsOk(lists.c[numcpus], left, curthread)
        invariant Quiet(old(script)) ==> history == old(history) && Quiet(script)
        invariant Quiet(old(script)) ==> SpreadTo(old(lists.c), lists.c, numcpus, me, share, count, i, left)
      {
        if i != me {
          Acquire();
          ghost var c, n := lists.c, left;
          left := FillCpu(i, share, left);
          if Quiet(old(script)) {
            SpreadMore(old(lists.c), c, lists.c, numcpus, me, i, share, count, n, left);
          }
        } else if Quiet(old(script)) {
          SpreadSkip(old(lists.c), lists.c, numcpus, me, share, count, left);
        }
        i := i + 1;
      }
      if Quiet(old(script)) {
        SpreadEnd(old(lists.c), lists.c, numcpus, me, share, count, i, left);
      }
    }

    /** Takes the first victim back to our own queue, if there is one. */
    method BackOne() returns (more: bool)
      requires Valid() && numcpus in lists.c
      modifies lists
      ensures Valid() && more == (old(lists.c)[numcpus] != [])
      ensures lists.c == if more then BackTo(old(lists.c), numcpus, me) else old(lists.c)
    {
      hide Linked, Inv, ReadyAfter;
      ghost var s := S();
      ListsThere(s, numcpus, me, curthread);
      if s.c[numcpus] != [] {
        FirstDetached(s, numcpus, me, curthread, numcpus);
      }
      var r := lists.RemHead(numcpus);
      if r.None? {
        return false;
      }
      lists.AddTail(me, r.value);
      OnListIsReady(s, numcpus, me, curthread, numcpus, r.value);
      HeadTo(s, numcpus, me, curthread, me, cpu, lists.next, lists.prev);
      more := true;
    }

    /** Victims that are left over go back to our own queue. */
    method PutBack()
      requires Valid() && numcpus in lists.c
      modifies this`cpu, this`history, this`script, lists
      ensures Valid() && lists.c.Keys == old(lists.c.Keys) && lists.c[numcpus] == [] && old(history) <= history
      ensures Quiet(old(script)) ==> history == old(history) && lists.c == PutBackAll(old(lists.c), numcpus, me)
    {
      hide Linked, Inv, ReadyAfter, PutBackAll, BackTo;
      ListsThere(S(), numcpus, me, curthread);
      AllBack(lists.c, numcpus, me);
      var empty := lists.IsEmpty(numcpus);
      if empty {
        return;
      }
      Acquire();
      ghost var c := lists.c;
      var more := true;
      while more
        invariant Valid() && lists.c.Keys == c.Keys && (!more ==> lists.c[numcpus] == [])
        invariant PutBackAll(lists.c, numcpus, me) == PutBackAll(c, numcpus, me)
        modifies lists
        decreases |lists.c[numcpus]|, more
      {
        BackStep(lists.c, numcpus, me);
        more := BackOne();
      }
      AllBack(lists.c, numcpus, me);
    }

    /** Takes the threads to be sent off our queue. */
    method Gather(count: nat)
      requires Settled() && count <= |lists.c[me]|
      modifies this`cpu, this`history, this`script, lists
      ensures Valid() && numcpus in lists.c && |lists.c[numcpus]| == count && old(history) <= history
      ensures Quiet(old(script)) ==> history == old(history) && Quiet(script)
                                     && Chosen(old(S()), S(), numcpus, me, |old(lists.c)[me]| - count, priority)
    {
      hide Linked, Inv, ReadyAfter, Lowest;
      ghost var s0 := S();
      ListsThere(s0, numcpus, me, curthread);
      NewVictims(s0, numcpus, me, curthread);
      lists.Init(numcpus);
      Acquire();
      SelectVictims(count);
    }

    /** The victims are handed out, and what is left of them is put back; c5 and left are the state in between. */
    method Deliver(share: nat, count: nat) returns (ghost c5: Contents, ghost left: nat)
      requires Valid() && numcpus in lists.c && |lists.c[numcpus]| == count
      modifies this`cpu, this`history, this`script, lists
      ensures Settled() && old(history) <= history && c5.Keys == old(lists.c.Keys) && me in c5
      ensures VictimsOk(c5[numcpus], left, curthread)
      ensures Quiet(old(script)) ==> history == old(history) && Spread(old(lists.c), c5, numcpus, me, share)
      ensures Quiet(old(script)) ==> lists.c == PutBackAll(c5, numcpus, me) - {numcpus}
      ensures Quiet(old(script)) && count <= old(Room(lists.c, 0, numcpus, me, share)) ==> left == 0
    {
      hide Linked, Inv, ReadyAfter, VictimsOk, Spread, PutBackAll, Room, Quiet;
      ListsThere(S(), numcpus, me, curthread);
      AllToSend(lists.c[numcpus], curthread);
      var rest := Distribute(share, count);
      c5, left := lists.c, rest;
      PutBack();
      NoVictims(S(), numcpus, me, curthread);
      lists.Cleanup(numcpus);
    }

    /** The rest of thread_consider_migration, when count threads are to be sent. */
    method SendAway(share: nat, count: nat)
      requires Settled() && count <= |lists.c[me]|
      modifies this`cpu, this`history, this`script, lists
      ensures Settled() && old(history) <= history
      ensures Quiet(old(script)) && share == old(Share(lists.c, numcpus)) && count + share == |old(lists.c)[me]|
              ==> history == old(history) && Balanced(old(lists.c), lists.c, numcpus, me, curthread, priority)
    {
      hide Linked, Inv, ReadyAfter, VictimsOk, Spread, Balanced, PutBackAll, Share, Room, Chosen, Quiet;
      ghost var s0 := S();
      ListsThere(s0, numcpus, me, curthread);
      Gather(count);
      ghost var s4 := S();
      ListsThere(s4, numcpus, me, curthread);
      ghost var c5, left := Deliver(share, count);
      if Quiet(old(script)) && share == Share(s0.c, numcpus) && count + share == |s0.c[me]| {
        Finish(s0, s4, c5, lists.c, numcpus, me, curthread, priority, share, left);
      }
    }

    /** thread_consider_migration. */
    method ConsiderMigration()
      requires Settled()
      modifies this`cpu, this`history, this`script, lists
      ensures Settled() && old(history) <= history
      ensures Quiet(old(script)) ==> history == old(history)
      ensures Quiet(old(script)) ==> Balanced(old(lists.c), lists.c, numcpus, me, curthread, priority)
    {
      hide Linked, Inv, ReadyAfter, Balanced, Total;
      ListsThere(S(), numcpus, me, curthread);
      var mine, total := CountQueues();
      var share := (total + numcpus - 1) / numcpus;
      if mine < share {
        Unbalanced(old(lists.c), lists.c, numcpus, me, curthread, priority);
        return;
      }
      SendAway(share, mine - share);
    }

    /** schedule, with no other processor at the queue meanwhile: brings a thread to the front, a random one and the one
        with the lowest priority value in turn. */
    method Schedule(random: nat)
      requires Valid()
      modifies this`byPriority, lists
      ensures Valid() && (old(lists.c[me]) == [] ==> lists.c == old(lists.c) && byPriority == old(byPriority))
      ensures old(lists.c[me]) != [] ==> byPriority != old(byPriority) && lists.c[me] != []
      ensures old(lists.c[me]) != [] ==> lists.c == old(lists.c)[me := ToFront(old(lists.c[me]), lists.c[me][0])]
      ensures old(lists.c[me]) != [] && old(byPriority) ==> FirstLowest(old(lists.c[me]), priority, lists.c[me][0])
      ensures old(lists.c[me]) != [] && !old(byPriority) ==>
                lists.c[me][0] == old(lists.c[me])[random % |old(lists.c[me])|]
    {
      hide Linked, Inv, FirstLowest, Removed;
      ghost var s := S();
      ListsThere(s, numcpus, me, curthread);
      var empty := lists.IsEmpty(me);
      if empty {
        return;
      }
      var t;
      if byPriority {
        t := lists.FindLowest(me, priority);
        LowestOn(lists.c[me], priority, t);
      } else {
        t := lists.WalkTo(me, random % lists.count[me]);
      }
      byPriority := !byPriority;
      Detached(s, numcpus, me, curthread, me, t);
      lists.Remove(me, t);
      lists.AddHead(me, t);
      NoRepeat(s, numcpus, me, curthread, me);
      FrontSame(s.c[me], t);
      assert lists.c == s.c[me := ToFront(s.c[me], t)];
      Reordered(s, numcpus, me, curthread, me, ToFront(s.c[me], t), lists.next, lists.prev);
    }
  }

  ghost function ToFront(s: seq<nat>, t: nat): (r: seq<nat>) {
    if t in s then [t] + Removed(s, IndexOf(s, t)) else s
  }

  lemma FrontSame(s: seq<nat>, t: nat)
    requires Distinct(s) && t in s
    ensures forall x :: x in ToFront(s, t) <==> x in s
  {
    forall x ensures x in ToFront(s, t) <==> x in s {
      RemovedElements(s, IndexOf(s, t), x);
    }
  }

  lemma LowestOn(s: seq<nat>, priority: nat -> int, t: nat)
    requires FirstLowest(s, priority, t)
    ensures t in s
  {
  }

  ghost function BackTo(c: Contents, n: nat, me: nat): Contents
    requires me in c && n in c && c[n] != []
  {
    c[n := c[n][1..]][me := c[me] + [c[n][0]]]
  }

  lemma BackStep(c: Contents, n: nat, me: nat)
    requires me in c && n in c && me != n
    ensures c[n] != [] ==> BackTo(c, n, me).Keys == c.Keys && |BackTo(c, n, me)[n]| == |c[n]| - 1
                           && PutBackAll(BackTo(c, n, me), n, me) == PutBackAll(c, n, me)
  {
    if c[n] != [] {
      assert c[me] + [c[n][0]] + c[n][1..] == c[me] + c[n];
    }
  }

  lemma AllBack(c: Contents, n: nat, me: nat)
    requires me in c && n in c
    ensures c[n] == [] ==> PutBackAll(c, n, me) == c
  {
    if c[n] == [] { assert c[me] + c[n] == c[me]; }
  }

  ghost function PutBackAll(c: Contents, n: nat, me: nat): Contents
    requires me in c && n in c
  {
    c[me := c[me] + c[n]][n := []]
  }

  lemma AllToSend(v: seq<nat>, cur: nat)
    ensures VictimsOk(v, |v|, cur)
  {
  }

  lemma NewVictims(s: Sys, n: nat, me: nat, cur: nat)
    requires Inv(s, n, me, cur) && n !in s.c
    ensures Inv(s.(c := s.c[n := []]), n, me, cur)
  {
    var s' := s.(c := s.c[n := []]);
    forall l ensures AtHome(s', n, me, l) {
      assert AtHome(s, n, me, l);
    }
    forall t ensures Off(s'.c, t) == Off(s.c, t) {
      assert forall l :: l in s.c ==> s'.c[l] == s.c[l];
      if Off(s'.c, t) {
        forall l | l in s.c ensures t !in s.c[l] { assert l in s'.c && t !in s'.c[l]; }
      }
    }
  }

  lemma NoVictims(s: Sys, n: nat, me: nat, cur: nat)
    requires Inv(s, n, me, cur) && n in s.c && s.c[n] == []
    ensures Inv(s.(c := s.c - {n}), n, me, cur)
  {
    var s' := s.(c := s.c - {n});
    forall l ensures AtHome(s', n, me, l) {
      assert AtHome(s, n, me, l);
    }
    forall t ensures Off(s'.c, t) == Off(s.c, t) {
      if Off(s'.c, t) {
        forall l | l in s.c ensures t !in s.c[l] { assert l != n ==> l in s'.c && t !in s'.c[l]; }
      }
    }
  }

  /** One share: the total over the processors, rounded up. */
  ghost function Share(c: Contents, n: nat): nat
    requires n > 0 && forall l :: l < n ==> l in c
  {
    (Total(c, n) + n - 1) / n
  }

  /** What migration achieves when nothing else runs. A processor below a share leaves things alone. Otherwise its
      queue ends at exactly one share (one more if the running thread was picked), no other queue is pushed above
      a share, and what was sent away has the lowest priority values. */
  ghost predicate Balanced(c: Contents, c': Contents, n: nat, me: nat, cur: nat, priority: nat -> int)
    requires me < n && forall l :: l < n ==> l in c
  {
    var share := Share(c, n);
    && c'.Keys == c.Keys
    && if |c[me]| < share then c' == c
       else
         && (forall l :: l < n && l != me ==> c[l] <= c'[l] && (c'[l] == c[l] || |c'[l]| <= share))
         && share <= |c'[me]| <= share + 1
         && (Off(c, cur) ==> |c'[me]| == share && SentLowest(c, c', n, me, priority))
  }

  ghost predicate SentLowest(c: Contents, c': Contents, n: nat, me: nat, priority: nat -> int)
    requires me < n && (forall l :: l < n ==> l in c) && c'.Keys == c.Keys
  {
    forall l, t, q :: l < n && l != me && t in c'[l] && t !in c[l] && q in c'[me] ==> priority(t) <= priority(q)
  }

  lemma Unbalanced(c: Contents, c': Contents, n: nat, me: nat, cur: nat, priority: nat -> int)
    requires me < n && (forall l :: l < n ==> l in c)
    ensures c' == c && |c[me]| < Share(c, n) ==> Balanced(c, c', n, me, cur, priority)
  {
  }

  lemma RoundedUp(total: nat, n: nat)
    requires n > 0
    ensures (total + n - 1) / n * n >= total
  {
    var q, r := (total + n - 1) / n, (total + n - 1) % n;
    assert total + n - 1 == n * q + r;
    assert n * q == q * n;
  }

  lemma {:induction false} RoomSame(c: Contents, c': Contents, i: nat, n: nat, me: nat, share: nat)
    requires i <= n && (forall l :: l < n ==> l in c && l in c') && (forall l :: l < n && l != me ==> c'[l] == c[l])
    ensures Room(c', i, n, me, share) == Room(c, i, n, me, share)
    decreases n - i
  {
    if i < n { RoomSame(c, c', i + 1, n, me, share); }
  }

  /** Once the victims are chosen, the other processors have room for them all. */
  lemma EnoughRoom(c: Contents, c': Contents, n: nat, me: nat)
    requires me < n && (forall l :: l < n ==> l in c && l in c') && (forall l :: l < n && l != me ==> c'[l] == c[l])
    ensures |c[me]| - Share(c, n) <= Room(c', 0, n, me, Share(c, n))
  {
    var share := Share(c, n);
    RoomSame(c, c', 0, n, me, share);
    RoomFor(c, 0, n, me, share);
    RoundedUp(Total(c, n), n);
  }

  /** The state after the victims were chosen: s4. */
  ghost predicate Chosen(s0: Sys, s4: Sys, n: nat, me: nat, share: nat, priority: nat -> int)
    requires me < n && (forall l :: l < n ==> l in s0.c)
  {
    && n !in s0.c && s4.c.Keys == s0.c.Keys + {n} && s4.ready == s0.ready && share <= |s0.c[me]|
    && |s4.c[n]| == |s0.c[me]| - share && |s4.c[me]| == share
    && (forall l :: l in s0.c && l != me ==> s4.c[l] == s0.c[l]) && Lowest(s4.c[n], s4.c[me], priority)
  }

  lemma Finish(s0: Sys, s4: Sys, c5: Contents, c: Contents, n: nat, me: nat, cur: nat, priority: nat -> int,
               share: nat, left: nat)
    requires Inv(s0, n, me, cur) && Inv(s4, n, me, cur)
    requires Chosen(s0, s4, n, me, share, priority) && share == Share(s0.c, n)
    requires Spread(s4.c, c5, n, me, share) && VictimsOk(c5[n], left, cur)
    requires |s4.c[n]| <= Room(s4.c, 0, n, me, share) ==> left == 0
    requires c == PutBackAll(c5, n, me) - {n}
    ensures Balanced(s0.c, c, n, me, cur, priority)
  {
    hide Inv, Room, Share, Spread, Lowest, PutBackAll, Total;
    ListsThere(s0, n, me, cur);
    EnoughRoom(s0.c, s4.c, n, me);
    FinishMine(s0, s4, c5, c, n, me, cur, share);
    FinishOthers(s0.c, s4.c, c5, c, n, me, share);
    if Off(s0.c, cur) {
      FinishLowest(s0, s4, c5, c, n, me, share, priority);
    }
  }

  lemma FinishMine(s0: Sys, s4: Sys, c5: Contents, c: Contents, n: nat, me: nat, cur: nat, share: nat)
    requires Inv(s0, n, me, cur) && Inv(s4, n, me, cur) && n in s4.c && s4.ready == s0.ready
    requires Spread(s4.c, c5, n, me, share) && VictimsOk(c5[n], 0, cur)
    requires |s4.c[me]| == share && c == PutBackAll(c5, n, me) - {n}
    ensures me in c && share <= |c[me]| <= share + 1
    ensures Off(s0.c, cur) ==> |c[me]| == share && c[me] == s4.c[me]
  {
    assert c[me] == c5[me] + c5[n];
    if Off(s0.c, cur) {
      assert cur !in c5[n] by {
        if cur in c5[n] { OnListIsReady(s4, n, me, cur, n, cur); }
      }
      assert c5[n] == [];
    }
  }

  lemma FinishOthers(c0: Contents, c4: Contents, c5: Contents, c: Contents, n: nat, me: nat, share: nat)
    requires Spread(c4, c5, n, me, share) && c == PutBackAll(c5, n, me) - {n} && n !in c0 && c4.Keys == c0.Keys + {n}
    requires (forall l :: l < n ==> l in c0) && (forall l :: l in c0 && l != me ==> c4[l] == c0[l])
    ensures c.Keys == c0.Keys
    ensures forall l :: l < n && l != me ==> c0[l] <= c[l] && (c[l] == c0[l] || |c[l]| <= share)
    ensures forall l, x :: l < n && l != me && x in c[l] ==> x in c0[l] || x in c4[n]
  {
    hide Spread, PutBackAll;
    OthersUnmoved(c4, c5, c, n, me, share);
    forall l: nat | l < n && l != me
      ensures c0[l] <= c[l] && (c[l] == c0[l] || |c[l]| <= share)
      ensures forall x :: x in c[l] ==> x in c0[l] || x in c4[n]
    {
      SpreadAt(c4, c5, n, me, share, l);
    }
  }

  lemma OthersUnmoved(c4: Contents, c5: Contents, c: Contents, n: nat, me: nat, share: nat)
    requires Spread(c4, c5, n, me, share) && c == PutBackAll(c5, n, me) - {n}
    ensures c.Keys == c4.Keys - {n} && forall l :: l in c && l != me ==> c[l] == c5[l]
  {
  }

  lemma SpreadAt(c: Contents, c': Contents, n: nat, me: nat, share: nat, l: nat)
    requires Spread(c, c', n, me, share) && l in c && l != n
    ensures l in c' && c[l] <= c'[l] && (c'[l] == c[l] || |c'[l]| <= share)
    ensures forall x :: x in c'[l] ==> x in c[l] || x in c[n]
  {
  }

  lemma FinishLowest(s0: Sys, s4: Sys, c5: Contents, c: Contents, n: nat, me: nat, share: nat, priority: nat -> int)
    requires me < n && (forall l :: l < n ==> l in s0.c)
    requires Chosen(s0, s4, n, me, share, priority) && c.Keys == s0.c.Keys
    requires c[me] == s4.c[me] && forall l, x :: l < n && l != me && x in c[l] ==> x in s0.c[l] || x in s4.c[n]
    ensures SentLowest(s0.c, c, n, me, priority)
  {
  }

  ghost function Total(c: Contents, k: nat): nat
    requires forall l :: l < k ==> l in c
  {
    if k == 0 then 0 else Total(c, k - 1) + |c[k - 1]|
  }

  /** How many threads the processors from i on can take before they reach a share. */
  ghost function Room(c: Contents, i: nat, n: nat, me: nat, share: nat): nat
    requires i <= n && forall l :: l < n ==> l in c
    decreases n - i
  {
    if i == n then 0
    else (if i != me && |c[i]| < share then share - |c[i]| else 0) + Room(c, i + 1, n, me, share)
  }

  /** The others, undisturbed, can take all that is above our share. */
  lemma {:induction false} RoomFor(c: Contents, i: nat, n: nat, me: nat, share: nat)
    requires i <= n && me < n && (forall l :: l < n ==> l in c)
    ensures Room(c, i, n, me, share)
            >= share * (n - i) - (Total(c, n) - Total(c, i)) + if i <= me then |c[me]| - share else 0
    decreases n - i
  {
    if i < n {
      RoomFor(c, i + 1, n, me, share);
      assert share * (n - i) == share * (n - (i + 1)) + share;
    }
  }

  /** What the second pass does when nothing else runs: queues of others grow at the end, up to a share at most,
      by threads that were among the victims. */
  ghost predicate Spread(c: Contents, c': Contents, n: nat, me: nat, share: nat) {
    && c'.Keys == c.Keys && me in c && n in c && c'[me] == c[me] && (forall x :: x in c'[n] ==> x in c[n])
    && (forall l :: l in c && l != n ==> c[l] <= c'[l] && (c'[l] == c[l] || |c'[l]| <= share))
    && (forall l, x :: l in c && l != n && x in c'[l] ==> x in c[l] || x in c[n])
  }

  /** Processors below i have had their share, or nothing is left to send. */
  ghost predicate SpreadTo(c: Contents, c': Contents, n: nat, me: nat, share: nat, count: nat, i: nat, left: nat)
    requires i <= n && forall l :: l < n ==> l in c
  {
    && Spread(c, c', n, me, share) && (forall l :: i <= l < n ==> c'[l] == c[l])
    && (count <= Room(c, 0, n, me, share) ==> left <= Room(c, i, n, me, share))
  }

  lemma NothingSpread(c: Contents, n: nat, me: nat, share: nat, count: nat)
    requires me in c && n in c && forall l :: l < n ==> l in c
    ensures SpreadTo(c, c, n, me, share, count, 0, count)
  {
  }

  lemma SpreadSkip(c: Contents, c': Contents, n: nat, me: nat, share: nat, count: nat, left: nat)
    requires me < n && (forall l :: l < n ==> l in c) && SpreadTo(c, c', n, me, share, count, me, left)
    ensures SpreadTo(c, c', n, me, share, count, me + 1, left)
  {
  }

  lemma SpreadEnd(c: Contents, c': Contents, n: nat, me: nat, share: nat, count: nat, i: nat, left: nat)
    requires i <= n && (forall l :: l < n ==> l in c)
    requires SpreadTo(c, c', n, me, share, count, i, left) && (i == n || left == 0)
    ensures Spread(c, c', n, me, share) && (count <= Room(c, 0, n, me, share) ==> left == 0)
  {
  }

  lemma SpreadMore(c0: Contents, c: Contents, c': Contents, n: nat, me: nat, i: nat, share: nat, count: nat,
                   left: nat, left': nat)
    requires i < n && i != me && me != n && (forall l :: l < n ==> l in c0)
    requires SpreadTo(c0, c, n, me, share, count, i, left)
    requires Filled(c, c', n, i, share, left, left') && i in c' && (left' == 0 || |c'[i]| >= share)
    ensures SpreadTo(c0, c', n, me, share, count, i + 1, left')
  {
    assert c[i] == c0[i];
  }

  /** Between taking the victims and putting back what is left of them: there are as many as are still to be sent,
      besides the running thread when it was passed over. */
  ghost predicate VictimsOk(v: seq<nat>, count: nat, cur: nat) {
    |v| == count || (|v| == count + 1 && v[count] == cur)
  }

  /** What filling a queue up to a share does. */
  ghost predicate Filled(c: Contents, c': Contents, n: nat, i: nat, share: nat, count: nat, left: nat) {
    && c'.Keys == c.Keys && i in c && n in c && left <= count
    && (forall l :: l in c && l != i && l != n ==> c'[l] == c[l])
    && c[i] <= c'[i] && (c'[i] == c[i] || |c'[i]| <= share) && |c'[i]| - |c[i]| <= count - left
    && (forall x :: x in c'[n] ==> x in c[n]) && (forall x :: x in c'[i] ==> x in c[i] || x in c[n])
  }

  lemma NothingFilled(c: Contents, n: nat, i: nat, share: nat, count: nat)
    requires i in c && n in c
    ensures Filled(c, c, n, i, share, count, count)
  {
  }

  lemma FilledApart(c: Contents, c': Contents, n: nat, i: nat, share: nat, count: nat, left: nat, l: nat)
    requires Filled(c, c', n, i, share, count, left) && l in c && l != i && l != n
    ensures c'[l] == c[l]
  {
  }

  lemma FilledMore(c0: Contents, c: Contents, c': Contents, n: nat, i: nat, share: nat, count: nat, left: nat,
                   kept: bool)
    requires Filled(c0, c, n, i, share, count, left) && left > 0 && i != n && c[n] != [] && |c[i]| < share
    requires c' == if kept then c[n := c[n][1..] + [c[n][0]]] else c[n := c[n][1..]][i := c[i] + [c[n][0]]]
    ensures Filled(c0, c', n, i, share, count, left - 1)
  {
  }

  lemma SomeVictim(v: seq<nat>, count: nat, cur: nat)
    requires VictimsOk(v, count, cur) && count > 0
    ensures v != []
  {
  }

  /** The running thread is passed over once: then it is last, and the others come before it. */
  lemma VictimsStill(v: seq<nat>, count: nat, cur: nat, kept: bool)
    requires VictimsOk(v, count, cur) && count > 0 && Distinct(v) && v != [] && kept == (v[0] == cur)
    ensures VictimsOk(if kept then v[1..] + [v[0]] else v[1..], count - 1, cur)
  {
  }

  lemma NoRepeat(s: Sys, n: nat, me: nat, cur: nat, l: nat)
    requires Inv(s, n, me, cur) && l in s.c
    ensures Distinct(s.c[l])
  {
  }

  lemma FirstDetached(s: Sys, n: nat, me: nat, cur: nat, l: nat)
    requires Inv(s, n, me, cur) && l in s.c && s.c[l] != []
    ensures Off(s.c[l := s.c[l][1..]], s.c[l][0])
  {
    var t := s.c[l][0];
    forall m | m in s.c && m != l ensures t !in s.c[m] {
      assert t in s.c[l];
    }
  }

  /** A list in another order holds the same threads. */
  lemma Reordered(s: Sys, n: nat, me: nat, cur: nat, l: nat, r: seq<nat>, next: Links, prev: Links)
    requires Inv(s, n, me, cur) && l in s.c && (forall x :: x in r <==> x in s.c[l]) && Linked(next, prev, s.c[l := r])
    ensures Inv(s.(c := s.c[l := r]), n, me, cur)
  {
    var s' := s.(c := s.c[l := r]);
    forall m ensures AtHome(s', n, me, m) {
      assert AtHome(s, n, me, m);
    }
    forall x ensures Off(s'.c, x) == Off(s.c, x) {
      assert forall m :: m in s.c ==> (x in s'.c[m] <==> x in s.c[m]);
    }
  }

  lemma HeadTo(s: Sys, n: nat, me: nat, cur: nat, i: nat, cpu: map<nat, nat>, next: Links, prev: Links)
    requires Inv(s, n, me, cur) && n in s.c && s.c[n] != [] && i < n && (s.c[n][0] == cur ==> i == me)
    requires forall x :: CpuOf(cpu, x) == if x == s.c[n][0] then i else CpuOf(s.cpu, x)
    requires Linked(next, prev, s.c[n := s.c[n][1..]][i := s.c[i] + [s.c[n][0]]])
    ensures Inv(Sys(s.c[n := s.c[n][1..]][i := s.c[i] + [s.c[n][0]]], cpu, s.ready), n, me, cur)
  {
    var t := s.c[n][0];
    var s' := Sys(s.c[n := s.c[n][1..]][i := s.c[i] + [t]], cpu, s.ready);
    NoRepeat(s, n, me, cur, n);
    Shifted(s, s', n, me, cur, n, i, t);
  }

  /** No victim has a higher priority value than a thread that stays. */
  ghost predicate Lowest(victims: seq<nat>, stay: seq<nat>, priority: nat -> int) {
    forall v, q :: v in victims && q in stay ==> priority(v) <= priority(q)
  }

  lemma StillLowest(victims: seq<nat>, stay: seq<nat>, priority: nat -> int, t: nat)
    requires Lowest(victims, stay, priority) && FirstLowest(stay, priority, t) && t in stay
    ensures Lowest([t] + victims, Removed(stay, IndexOf(stay, t)), priority)
  {
    var k :| 0 <= k < |stay| && stay[k] == t && LowestAt(stay, priority, k);
    forall v, q | v in [t] + victims && q in Removed(stay, IndexOf(stay, t)) ensures priority(v) <= priority(q) {
      assert q in stay;
    }
  }

  /** A thread taken off its only list is on none. */
  lemma Detached(s: Sys, n: nat, me: nat, cur: nat, l: nat, t: nat)
    requires Inv(s, n, me, cur) && l in s.c && t in s.c[l]
    ensures Off(s.c[l := Removed(s.c[l], IndexOf(s.c[l], t))], t)
  {
    RemovedElements(s.c[l], IndexOf(s.c[l], t), t);
  }

  lemma ToVictims(s: Sys, n: nat, me: nat, cur: nat, t: nat, next: Links, prev: Links)
    requires Inv(s, n, me, cur) && n in s.c && t in s.c[me]
    requires Linked(next, prev, s.c[me := Removed(s.c[me], IndexOf(s.c[me], t))][n := [t] + s.c[n]])
    ensures Inv(s.(c := s.c[me := Removed(s.c[me], IndexOf(s.c[me], t))][n := [t] + s.c[n]]), n, me, cur)
  {
    var s' := s.(c := s.c[me := Removed(s.c[me], IndexOf(s.c[me], t))][n := [t] + s.c[n]]);
    forall x ensures x in s'.c[me] <==> x in s.c[me] && x != t { RemovedElements(s.c[me], IndexOf(s.c[me], t), x); }
    OnListIsReady(s, n, me, cur, me, t);
    Shifted(s, s', n, me, cur, me, n, t);
  }

  /** Other processors add to our queue at its end, and leave our victims alone. */
  ghost predicate Meanwhile(s: Sys, s': Sys, n: nat, me: nat) {
    && s'.c.Keys == s.c.Keys && me in s.c && s.c[me] <= s'.c[me]
    && (n in s.c ==> s'.c[n] == s.c[n])
  }

  lemma ListsThere(s: Sys, n: nat, me: nat, cur: nat)
    requires Inv(s, n, me, cur)
    ensures me < n && forall l :: l < n ==> l in s.c
  {
  }

  /** A ready thread of another processor is on the run queue of that processor. */
  lemma WhichList(s: Sys, n: nat, me: nat, cur: nat, t: nat)
    requires Inv(s, n, me, cur) && !Off(s.c, t) && CpuOf(s.cpu, t) != me
    ensures CpuOf(s.cpu, t) < n && CpuOf(s.cpu, t) in s.c && t in s.c[CpuOf(s.cpu, t)]
  {
    var l :| l in s.c && t in s.c[l];
    assert AtHome(s, n, me, l);
  }
}
