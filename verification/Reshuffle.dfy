/**
 schedule moves a thread to the front of its run queue without holding the lock
 of the queue (kern/thread/thread.c, kern/thread/threadlist.c): the eight pointer
 writes of the move, with another processor's addition anywhere between them.
 */
module Reshuffle {
  import opened Common
  import opened ThreadList

  /** The pointer fields of all nodes. */
  datatype Pointers = Pointers(next: Links, prev: Links) {
    function SetNext(a: Node, b: Node): Pointers { this.(next := next[a := b]) }
    function SetPrev(a: Node, b: Node): Pointers { this.(prev := prev[a := b]) }
    function Next(a: Node): Node { Get(next, a) }
    function Prev(a: Node): Node { Get(prev, a) }
  }

  /** One pointer write of the move: threadlist_removenode does the first four, then threadlist_insertafternode at the
      head of the list does the others. */
  function Write(q: Pointers, x: Node, l: nat, i: nat): Pointers {
    match i
    case 0 => q.SetNext(q.Prev(x), q.Next(x))
    case 1 => q.SetPrev(q.Next(x), q.Prev(x))
    case 2 => q.SetPrev(x, Null)
    case 3 => q.SetNext(x, Null)
    case 4 => q.SetPrev(x, Head(l))
    case 5 => q.SetNext(x, q.Next(Head(l)))
    case 6 => q.SetNext(q.Prev(x), x)
    case _ => q.SetPrev(q.Next(x), x)
  }

  /** The writes up to p. */
  function Stage(q: Pointers, x: Node, l: nat, p: nat): Pointers {
    if p == 0 then q else Write(Stage(q, x, l, p - 1), x, l, p - 1)
  }

  /** The writes from p on. */
  function Rest(q: Pointers, x: Node, l: nat, p: nat): Pointers
    decreases 8 - p
  {
    if p >= 8 then q else Rest(Write(q, x, l, p), x, l, p + 1)
  }

  /** threadlist_insertbeforenode at the tail of the list. */
  function Add(q: Pointers, t: nat, l: nat): Pointers {
    var a := q.SetPrev(Of(t), q.Prev(Tail(l))).SetNext(Of(t), Tail(l));
    var b := a.SetNext(a.Prev(Of(t)), Of(t));
    b.SetPrev(b.Next(Of(t)), Of(t))
  }

  /** Another processor adds t after p of the writes. */
  function Interleaved(q: Pointers, x: Node, t: nat, l: nat, p: nat): Pointers {
    Rest(Add(Stage(q, x, l, p), t, l), x, l, p)
  }

  ghost predicate Ok(q: Pointers, l: nat, s: seq<nat>) { ListOk(q.next, q.prev, l, s) && Distinct(s) }

  /** The queue is linked up both ways, and holds the threads of s and t, each once. */
  ghost predicate Intact(q: Pointers, l: nat, s: seq<nat>, t: nat) {
    exists r :: Ok(q, l, r) && Holds(r, s, t)
  }

  ghost predicate Holds(r: seq<nat>, s: seq<nat>, t: nat) { forall y :: y in r <==> y in s || y == t }

  /** The points of harm: between the two relinking writes when the last thread is taken out, and, when it is alone,
      between the reading of the first node and the last write. */
  predicate Harmful(n: nat, k: nat, p: nat) {
    (k == n - 1 && p == 1) || (n == 1 && (p == 6 || p == 7))
  }

  /** For every queue, every thread of it that is moved and every point of the addition: the queue ends up holding what
      it should exactly if the point is not one of harm. */
  lemma UnlockedAdd(q: Pointers, l: nat, s: seq<nat>, k: nat, t: nat, p: nat)
    requires Ok(q, l, s) && k < |s| && t !in s && p <= 8
    ensures Intact(Interleaved(q, Of(s[k]), t, l, p), l, s, t) <==> !Harmful(|s|, k, p)
  {
    hide Ok, Intact, Interleaved;
    if p == 1 && k == |s| - 1 {
      LostAtRelink(q, l, s, k, t);
    } else if p >= 6 && |s| == 1 {
      if p == 6 { LostBeforeHead(q, l, s, t); }
      else if p == 7 { LostAfterHead(q, l, s, t); }
      else { AtEnd(q, l, s, k, t); }
    } else if p < 2 {
      AtStart(q, l, s, k, t);
      if p == 1 { PastRelink(q, l, s, k, t); }
    } else if p == 8 {
      AtEnd(q, l, s, k, t);
    } else {
      AtMiddle(q, l, s, k, t);
      Around(q, l, s, k, t, p);
    }
  }

  /** So an addition does no harm wherever it falls exactly if the thread moved is not the last of the queue. */
  lemma HarmlessExactly(q: Pointers, l: nat, s: seq<nat>, k: nat, t: nat)
    requires Ok(q, l, s) && k < |s| && t !in s
    ensures (forall p: nat :: p <= 8 ==> Intact(Interleaved(q, Of(s[k]), t, l, p), l, s, t)) <==> k != |s| - 1
  {
    hide Ok, Intact, Interleaved;
    forall p: nat | p <= 8
      ensures Intact(Interleaved(q, Of(s[k]), t, l, p), l, s, t) <==> !Harmful(|s|, k, p)
    {
      UnlockedAdd(q, l, s, k, t, p);
    }
    assert k == |s| - 1 ==> Harmful(|s|, k, 1) && !Intact(Interleaved(q, Of(s[k]), t, l, 1), l, s, t);
  }

  // ---------------------------------------------------------------- the steps one after the other

  lemma AddIs(q: Pointers, t: nat, l: nat)
    requires q.Prev(Tail(l)) != Of(t)
    ensures Add(q, t, l) == Pointers(q.next[Of(t) := Tail(l)][q.Prev(Tail(l)) := Of(t)],
                                     q.prev[Of(t) := q.Prev(Tail(l))][Tail(l) := Of(t)])
  {
  }

  lemma LastNode(q: Pointers, l: nat, s: seq<nat>)
    requires Ok(q, l, s)
    ensures q.Prev(Tail(l)) == NodeAt(l, s, |s| - 1)
  {
    assert LinkOk(q.next, q.prev, l, s, |s| - 1);
  }

  lemma Added(q: Pointers, l: nat, s: seq<nat>, t: nat)
    requires Ok(q, l, s) && t !in s
    ensures Ok(Add(q, t, l), l, s + [t])
  {
    LastNode(q, l, s);
    AddIs(q, t, l);
    InsertList(q.next, q.prev, l, s, |s|, t);
    assert Inserted(s, |s|, t) == s + [t];
  }

  lemma TakenOut(q: Pointers, l: nat, s: seq<nat>, k: nat)
    requires Ok(q, l, s) && k < |s|
    ensures Stage(q, Of(s[k]), l, 4) == Pointers(RemoveNext(q.next, l, s, k), RemovePrev(q.prev, l, s, k))
    ensures Ok(Stage(q, Of(s[k]), l, 4), l, Removed(s, k))
    ensures var a := Stage(q, Of(s[k]), l, 2);
            a.Prev(Tail(l)) == NodeAt(l, Removed(s, k), |s| - 2)
  {
    assert LinkOk(q.next, q.prev, l, s, k) && LinkOk(q.next, q.prev, l, s, k - 1);
    var x := Of(s[k]);
    NodesDiffer(l, s, k, k - 1);
    NodesDiffer(l, s, k, k + 1);
    var a := Stage(q, x, l, 1);
    var b := Stage(q, x, l, 2);
    assert Stage(q, x, l, 0) == q && a == q.SetNext(NodeAt(l, s, k - 1), NodeAt(l, s, k + 1));
    assert b == a.SetPrev(NodeAt(l, s, k + 1), NodeAt(l, s, k - 1));
    assert Stage(q, x, l, 3) == b.SetPrev(x, Null);
    assert Stage(q, x, l, 4) == Pointers(RemoveNext(q.next, l, s, k), RemovePrev(q.prev, l, s, k));
    RemoveList(q.next, q.prev, l, s, k);
    RemovedElements(s, k, 0);
    LastNode(Stage(q, x, l, 4), l, Removed(s, k));
  }

  lemma PutFirst(q: Pointers, l: nat, s: seq<nat>, x: nat)
    requires Ok(q, l, s) && x !in s
    ensures Ok(Rest(q, Of(x), l, 4), l, [x] + s)
  {
    assert LinkOk(q.next, q.prev, l, s, -1);
    RestFrom4(q, x, l);
    InsertList(q.next, q.prev, l, s, 0, x);
    assert Inserted(s, 0, x) == [x] + s;
  }

  lemma RestFrom4(q: Pointers, x: nat, l: nat)
    requires q.Next(Head(l)) != Of(x)
    ensures var first := q.Next(Head(l));
            Rest(q, Of(x), l, 4) == Pointers(q.next[Of(x) := first][Head(l) := Of(x)],
                                             q.prev[Of(x) := Head(l)][first := Of(x)])
  {
    var first := q.Next(Head(l));
    var a := q.SetPrev(Of(x), Head(l)).SetNext(Of(x), first);
    var b := a.SetNext(Head(l), Of(x));
    assert Rest(q, Of(x), l, 4) == Rest(a, Of(x), l, 6);
    assert Rest(a, Of(x), l, 6) == Rest(b, Of(x), l, 7) == b.SetPrev(first, Of(x));
  }

  lemma {:induction false} RestOfStage(q: Pointers, x: Node, l: nat, p: nat)
    requires p <= 8
    ensures Rest(Stage(q, x, l, p), x, l, p) == Rest(q, x, l, 0)
  {
    if p > 0 {
      RestOfStage(q, x, l, p - 1);
    }
  }

  lemma Held(q: Pointers, l: nat, r: seq<nat>, s: seq<nat>, t: nat)
    requires Ok(q, l, r) && Holds(r, s, t)
    ensures Intact(q, l, s, t)
  {
  }

  /** First the addition, then the move. */
  lemma AtStart(q: Pointers, l: nat, s: seq<nat>, k: nat, t: nat)
    requires Ok(q, l, s) && k < |s| && t !in s
    ensures Intact(Interleaved(q, Of(s[k]), t, l, 0), l, s, t)
  {
    hide Ok, Rest, Add, Removed, Intact;
    var x, a, r := s[k], Add(q, t, l), s + [t];
    Added(q, l, s, t);
    RestOfStage(a, Of(x), l, 4);
    assert r[k] == x && Distinct(r) by { Known(a, l, r); }
    TakenOut(a, l, r, k);
    forall y ensures y in Removed(r, k) <==> (y in s || y == t) && y != x {
      RemovedElements(r, k, y);
    }
    PutFirst(Stage(a, Of(x), l, 4), l, Removed(r, k), x);
    Held(Rest(a, Of(x), l, 0), l, [x] + Removed(r, k), s, t);
  }

  lemma Known(q: Pointers, l: nat, s: seq<nat>)
    requires Ok(q, l, s)
    ensures Distinct(s)
  {
  }

  /** The addition while the thread that is moved is on no list. */
  lemma AtMiddle(q: Pointers, l: nat, s: seq<nat>, k: nat, t: nat)
    requires Ok(q, l, s) && k < |s| && t !in s
    ensures Intact(Interleaved(q, Of(s[k]), t, l, 4), l, s, t)
  {
    hide Ok, Rest, Add, Removed, Intact, Stage;
    var x, r := s[k], Removed(s, k);
    Known(q, l, s);
    TakenOut(q, l, s, k);
    forall y ensures y in r <==> y in s && y != x {
      RemovedElements(s, k, y);
    }
    var a := Stage(q, Of(x), l, 4);
    Added(a, l, r, t);
    PutFirst(Add(a, t, l), l, r + [t], x);
    Held(Rest(Add(a, t, l), Of(x), l, 4), l, [x] + (r + [t]), s, t);
  }

  /** First the move, then the addition. */
  lemma AtEnd(q: Pointers, l: nat, s: seq<nat>, k: nat, t: nat)
    requires Ok(q, l, s) && k < |s| && t !in s
    ensures Intact(Interleaved(q, Of(s[k]), t, l, 8), l, s, t)
  {
    hide Ok, Add, Removed, Intact, Stage;
    var x, r := s[k], Removed(s, k);
    Moved(q, l, s, k);
    Known(q, l, s);
    forall y ensures y in r <==> y in s && y != x {
      RemovedElements(s, k, y);
    }
    var a := Stage(q, Of(x), l, 8);
    Added(a, l, [x] + r, t);
    Held(Add(a, t, l), l, [x] + r + [t], s, t);
  }

  /** The eight writes with nothing between them move the thread to the front. */
  lemma Moved(q: Pointers, l: nat, s: seq<nat>, k: nat)
    requires Ok(q, l, s) && k < |s|
    ensures Ok(Stage(q, Of(s[k]), l, 8), l, [s[k]] + Removed(s, k))
  {
    hide Ok, Removed, Stage;
    Known(q, l, s);
    TakenOut(q, l, s, k);
    RemovedElements(s, k, s[k]);
    PutFirst(Stage(q, Of(s[k]), l, 4), l, Removed(s, k), s[k]);
    RestOfStage(q, Of(s[k]), l, 4);
    RestOfStage(q, Of(s[k]), l, 8);
  }

  // ---------------------------------------------------------------- where the addition passes a write

  lemma Swap(q: Pointers, x: Node, t: nat, l: nat, p: nat)
    requires p < 8 && var a := Stage(q, x, l, p); Add(Write(a, x, l, p), t, l) == Write(Add(a, t, l), x, l, p)
    ensures Interleaved(q, x, t, l, p) == Interleaved(q, x, t, l, p + 1)
  {
  }

  lemma SwapPrev(q: Pointers, a: Node, b: Node, t: nat, l: nat)
    requires a != Of(t) && a != Tail(l) && q.Prev(Tail(l)) != Of(t)
    ensures Add(q.SetPrev(a, b), t, l) == Add(q, t, l).SetPrev(a, b)
  {
    AddIs(q, t, l);
    AddIs(q.SetPrev(a, b), t, l);
  }

  lemma SwapNext(q: Pointers, a: Node, b: Node, t: nat, l: nat)
    requires a != Of(t) && a != q.Prev(Tail(l)) && q.Prev(Tail(l)) != Of(t)
    ensures Add(q.SetNext(a, b), t, l) == Add(q, t, l).SetNext(a, b)
  {
    AddIs(q, t, l);
    AddIs(q.SetNext(a, b), t, l);
  }

  lemma AddKeeps(q: Pointers, t: nat, l: nat, n: Node)
    requires n != Of(t) && q.Prev(Tail(l)) != Of(t)
    ensures n != q.Prev(Tail(l)) ==> Add(q, t, l).Next(n) == q.Next(n)
    ensures n != Tail(l) ==> Add(q, t, l).Prev(n) == q.Prev(n)
  {
    AddIs(q, t, l);
  }

  lemma PastRelink(q: Pointers, l: nat, s: seq<nat>, k: nat, t: nat)
    requires Ok(q, l, s) && k < |s| - 1 && t !in s
    ensures Interleaved(q, Of(s[k]), t, l, 1) == Interleaved(q, Of(s[k]), t, l, 0)
  {
    var x := Of(s[k]);
    LastNode(q, l, s);
    assert LinkOk(q.next, q.prev, l, s, k) && LinkOk(q.next, q.prev, l, s, k - 1);
    NodesDiffer(l, s, k, |s| - 1);
    NodesDiffer(l, s, k - 1, |s| - 1);
    AddKeeps(q, t, l, x);
    SwapNext(q, NodeAt(l, s, k - 1), NodeAt(l, s, k + 1), t, l);
    Swap(q, x, t, l, 0);
  }

  /** The last node of the queue once the thread is out of it. */
  lemma OutLast(q: Pointers, l: nat, s: seq<nat>, k: nat, t: nat, p: nat)
    requires Ok(q, l, s) && k < |s| && t !in s && 2 <= p <= 6
    ensures var last := Stage(q, Of(s[k]), l, p).Prev(Tail(l));
            last != Of(s[k]) && last != Of(t) && (|s| > 1 ==> last != Head(l))
  {
    TakenOut(q, l, s, k);
    RemovedElements(s, k, s[k]);
    RemovedElements(s, k, t);
    var x := Of(s[k]);
    forall i: nat | 2 <= i < p ensures Stage(q, x, l, i + 1).Prev(Tail(l)) == Stage(q, x, l, i).Prev(Tail(l)) {
    }
  }

  lemma Around(q: Pointers, l: nat, s: seq<nat>, k: nat, t: nat, p: nat)
    requires Ok(q, l, s) && k < |s| && t !in s && 2 <= p <= 7 && (p >= 6 ==> |s| > 1)
    ensures Interleaved(q, Of(s[k]), t, l, p) == Interleaved(q, Of(s[k]), t, l, 4)
    decreases if p < 4 then 4 - p else p - 4
  {
    hide Ok, Interleaved;
    if p < 4 {
      Pass(q, l, s, k, t, p);
      Around(q, l, s, k, t, p + 1);
    } else if p > 4 {
      Pass(q, l, s, k, t, p - 1);
      Around(q, l, s, k, t, p - 1);
    }
  }

  lemma Pass(q: Pointers, l: nat, s: seq<nat>, k: nat, t: nat, p: nat)
    requires Ok(q, l, s) && k < |s| && t !in s && 2 <= p <= 6 && (p >= 5 ==> |s| > 1)
    ensures Interleaved(q, Of(s[k]), t, l, p) == Interleaved(q, Of(s[k]), t, l, p + 1)
  {
    hide Ok, Interleaved, Add;
    var x := Of(s[k]);
    var a := Stage(q, x, l, p);
    OutLast(q, l, s, k, t, p);
    Swap(q, x, t, l, p) by {
      if p == 2 { SwapPrev(a, x, Null, t, l); }
      else if p == 3 { SwapNext(a, x, Null, t, l); }
      else if p == 4 { SwapPrev(a, x, Head(l), t, l); }
      else if p == 5 { AddKeeps(a, t, l, Head(l)); SwapNext(a, x, a.Next(Head(l)), t, l); }
      else { AddKeeps(a, t, l, x); SwapNext(a, Head(l), x, t, l); }
    }
  }

  // ---------------------------------------------------------------- where it does not

  /** What is met from the head of the list on. */
  ghost predicate Forward(next: Links, l: nat, f: seq<nat>) {
    forall i :: -1 <= i < |f| ==> StepOk(next, l, f, i)
  }

  predicate StepOk(next: Links, l: nat, f: seq<nat>, i: int) { Get(next, NodeAt(l, f, i)) == NodeAt(l, f, i + 1) }

  lemma {:induction false} SameNode(next: Links, l: nat, f: seq<nat>, g: seq<nat>, i: nat)
    requires Forward(next, l, f) && Forward(next, l, g) && i <= |f| && i <= |g|
    ensures NodeAt(l, f, i) == NodeAt(l, g, i)
  {
    assert StepOk(next, l, f, i - 1) && StepOk(next, l, g, i - 1);
    if i > 0 {
      SameNode(next, l, f, g, i - 1);
    }
  }

  /** Only one sequence of threads is met from the head on. */
  lemma OneWay(next: Links, l: nat, f: seq<nat>, g: seq<nat>)
    requires Forward(next, l, f) && Forward(next, l, g)
    ensures f == g
  {
    SameNode(next, l, f, g, if |f| < |g| then |f| else |g|);
    forall i | 0 <= i < |f| ensures f[i] == g[i] {
      SameNode(next, l, f, g, i);
    }
  }

  lemma NotMet(q: Pointers, l: nat, f: seq<nat>, s: seq<nat>, t: nat)
    requires Forward(q.next, l, f) && !Holds(f, s, t)
    ensures !Intact(q, l, s, t)
  {
    forall r | Ok(q, l, r) ensures !Holds(r, s, t) {
      forall i | -1 <= i < |r| ensures StepOk(q.next, l, r, i) {
        assert LinkOk(q.next, q.prev, l, r, i);
      }
      OneWay(q.next, l, f, r);
    }
  }

  /** A node that is not met may point anywhere. */
  lemma StillMet(q: Pointers, next: Links, l: nat, f: seq<nat>, t: nat)
    requires Ok(q, l, f) && t !in f && next == q.next[Of(t) := Tail(l)]
    ensures Forward(next, l, f)
  {
    forall i | -1 <= i < |f| ensures StepOk(next, l, f, i) {
      assert LinkOk(q.next, q.prev, l, f, i);
    }
  }

  /** The last thread is moved, and the other one is added behind it before the tail is relinked: it is not met. */
  lemma LostAtRelink(q: Pointers, l: nat, s: seq<nat>, k: nat, t: nat)
    requires Ok(q, l, s) && k == |s| - 1 && t !in s
    ensures !Intact(Interleaved(q, Of(s[k]), t, l, 1), l, s, t)
  {
    var x, f := s[k], [s[k]] + Removed(s, k);
    Moved(q, l, s, k);
    RemovedElements(s, k, t);
    BehindLast(q, l, s, k, t);
    StillMet(Stage(q, Of(x), l, 8), Interleaved(q, Of(x), t, l, 1).next, l, f, t);
    assert t !in f;
    NotMet(Interleaved(q, Of(x), t, l, 1), l, f, s, t);
  }

  lemma BehindLast(q: Pointers, l: nat, s: seq<nat>, k: nat, t: nat)
    requires Ok(q, l, s) && k == |s| - 1 && t !in s
    ensures Interleaved(q, Of(s[k]), t, l, 1).next == Stage(q, Of(s[k]), l, 8).next[Of(t) := Tail(l)]
  {
    hide Ok, Stage, Interleaved, Removed;
    var x, r := Of(s[k]), Removed(s, k);
    var c := OutBehind(q, l, s, k, t);
    var d := Stage(q, x, l, 4);
    TakenOut(q, l, s, k);
    Known(q, l, s);
    RemovedElements(s, k, s[k]);
    FirstNode(d, l, r);
    RestFrom4(d, s[k], l);
    RestFrom4(c, s[k], l);
    RestOfStage(q, x, l, 4);
    RestOfStage(q, x, l, 8);
  }

  lemma FirstNode(q: Pointers, l: nat, s: seq<nat>)
    requires Ok(q, l, s)
    ensures q.Next(Head(l)) == NodeAt(l, s, 0)
  {
    assert LinkOk(q.next, q.prev, l, s, -1);
  }

  /** The thread is out of the queue, as without the addition but for the node added. */
  lemma OutBehind(q: Pointers, l: nat, s: seq<nat>, k: nat, t: nat) returns (c: Pointers)
    requires Ok(q, l, s) && k == |s| - 1 && t !in s
    ensures Interleaved(q, Of(s[k]), t, l, 1) == Rest(c, Of(s[k]), l, 4)
    ensures c.next == Stage(q, Of(s[k]), l, 4).next[Of(t) := Tail(l)]
  {
    var x := Of(s[k]);
    LastNode(q, l, s);
    assert LinkOk(q.next, q.prev, l, s, k) && LinkOk(q.next, q.prev, l, s, k - 1);
    NodesDiffer(l, s, k, k - 1);
    var a := Stage(q, x, l, 1);
    var b := Add(a, t, l);
    assert Stage(q, x, l, 0) == q && a == q.SetNext(NodeAt(l, s, k - 1), Tail(l));
    AddIs(a, t, l);
    assert b.Next(x) == Of(t) && b.Prev(x) == NodeAt(l, s, k - 1);
    c := Write(b, x, l, 1).SetPrev(x, Null).SetNext(x, Null);
    assert Rest(b, x, l, 1) == Rest(Write(b, x, l, 1), x, l, 2) == Rest(c, x, l, 4);
    assert Stage(q, x, l, 3).next == a.next;
  }

  /** A thread alone on the queue, up to its sixth write. */
  lemma AloneStage(q: Pointers, l: nat, s: seq<nat>)
    requires Ok(q, l, s) && |s| == 1
    ensures var a := Stage(q, Of(s[0]), l, 6);
            a.Prev(Tail(l)) == Head(l) == a.Prev(Of(s[0])) && a.Next(Of(s[0])) == Tail(l)
  {
    var x := Of(s[0]);
    TakenOut(q, l, s, 0);
    var d := Stage(q, x, l, 4);
    assert Removed(s, 0) == [];
    assert LinkOk(d.next, d.prev, l, [], -1);
    assert Stage(q, x, l, 5) == d.SetPrev(x, Head(l));
    assert Stage(q, x, l, 6) == d.SetPrev(x, Head(l)).SetNext(x, Tail(l));
  }

  /** Added when the thread has taken its next node but the head does not point at it: the other one is not met. */
  lemma LostBeforeHead(q: Pointers, l: nat, s: seq<nat>, t: nat)
    requires Ok(q, l, s) && |s| == 1 && t !in s
    ensures !Intact(Interleaved(q, Of(s[0]), t, l, 6), l, s, t)
  {
    var x := Of(s[0]);
    var a := Stage(q, x, l, 6);
    AloneStage(q, l, s);
    AddIs(a, t, l);
    var b := Add(a, t, l);
    var c := Rest(b, x, l, 6);
    assert c.next == b.SetNext(Head(l), x).next;
    assert StepOk(c.next, l, [s[0]], -1) && StepOk(c.next, l, [s[0]], 0);
    assert t !in [s[0]];
    NotMet(c, l, [s[0]], s, t);
  }

  /** Added when the head points at the thread but the tail does not: the thread moved is not met. */
  lemma LostAfterHead(q: Pointers, l: nat, s: seq<nat>, t: nat)
    requires Ok(q, l, s) && |s| == 1 && t !in s
    ensures !Intact(Interleaved(q, Of(s[0]), t, l, 7), l, s, t)
  {
    var x := Of(s[0]);
    var a := Stage(q, x, l, 7);
    AloneStage(q, l, s);
    assert a == Stage(q, x, l, 6).SetNext(Head(l), x);
    AddIs(a, t, l);
    var c := Rest(Add(a, t, l), x, l, 7);
    assert c.next == Add(a, t, l).next;
    assert StepOk(c.next, l, [t], -1) && StepOk(c.next, l, [t], 0);
    assert s[0] in s && s[0] !in [t];
    NotMet(c, l, [t], s, t);
  }

  // ---------------------------------------------------------------- an instance

  /** Thread 7 alone on queue 0. */
  const ALONE := Pointers(map[Head(0) := Of(7), Of(7) := Tail(0)], map[Tail(0) := Of(7), Of(7) := Head(0)])

  /** schedule has taken thread 7 out and begun to put it back; another processor adds thread 9, and schedule goes on.
      Thread 9 is on the queue by its own pointers, but met from neither end. */
  lemma ThreadLost()
    ensures Ok(ALONE, 0, [7])
    ensures var q := Interleaved(ALONE, Of(7), 9, 0, 6);
            && q.Next(Head(0)) == Of(7) && q.Next(Of(7)) == Tail(0)
            && q.Prev(Tail(0)) == Of(7) && q.Prev(Of(7)) == Head(0)
            && q.Prev(Of(9)) == Head(0) && q.Next(Of(9)) == Tail(0)
            && !Intact(q, 0, [7], 9)
  {
    assert forall i :: -1 <= i < 1 ==> LinkOk(ALONE.next, ALONE.prev, 0, [7], i);
    UnlockedAdd(ALONE, 0, [7], 0, 9, 6);
  }
}
