/**
 Thread lists (kern/thread/threadlist.c): doubly linked lists with a bookend
 node at each end, linked through the list node inside every thread.
 */
module ThreadList {
  import opened Common

  /** A list node: a bookend of a list, or the node inside a thread (tln_self is that thread). */
  datatype Node = Null | Head(list: nat) | Tail(list: nat) | Of(thread: nat)

  /** A pointer field of all nodes. */
  type Links = map<Node, Node>

  function Get(m: Links, n: Node): Node { if n in m then m[n] else Null }

  /** Which threads are on which list, in order. */
  type Contents = map<nat, seq<nat>>

  /** The node at a position of a list, the bookends included. */
  function NodeAt(l: nat, s: seq<nat>, i: int): Node {
    if i < 0 then Head(l) else if i < |s| then Of(s[i]) else Tail(l)
  }

  /** Neighbours point at each other. */
  predicate LinkOk(next: Links, prev: Links, l: nat, s: seq<nat>, i: int) {
    Get(next, NodeAt(l, s, i)) == NodeAt(l, s, i + 1) && Get(prev, NodeAt(l, s, i + 1)) == NodeAt(l, s, i)
  }

  ghost predicate ListOk(next: Links, prev: Links, l: nat, s: seq<nat>) {
    && Get(prev, Head(l)) == Null && Get(next, Tail(l)) == Null
    && forall i :: -1 <= i < |s| ==> LinkOk(next, prev, l, s, i)
  }

  ghost predicate Off(c: Contents, t: nat) { forall l :: l in c ==> t !in c[l] }

  /** No thread is on two lists, or twice on one. */
  ghost predicate Apart(c: Contents) {
    && (forall l :: l in c ==> Distinct(c[l]))
    && (forall l, m, t :: l in c && m in c && t in c[l] && t in c[m] ==> l == m)
  }

  /** Every list is linked up, and the node of a thread on no list is unlinked. */
  ghost predicate Linked(next: Links, prev: Links, c: Contents) {
    && Apart(c)
    && (forall l :: l in c ==> ListOk(next, prev, l, c[l]))
    && (forall t :: Off(c, t) ==> Get(next, Of(t)) == Null && Get(prev, Of(t)) == Null)
  }

  function Inserted(s: seq<nat>, k: nat, t: nat): (r: seq<nat>)
    requires k <= |s|
    ensures |r| == |s| + 1
  {
    s[..k] + [t] + s[k..]
  }

  function Removed(s: seq<nat>, k: nat): (r: seq<nat>)
    requires k < |s|
    ensures |r| == |s| - 1
  {
    s[..k] + s[k + 1..]
  }

  /** The pointer next to a position, after t was linked in at k. */
  function InsertNext(next: Links, l: nat, s: seq<nat>, k: nat, t: nat): Links {
    next[Of(t) := NodeAt(l, s, k)][NodeAt(l, s, k - 1) := Of(t)]
  }

  function InsertPrev(prev: Links, l: nat, s: seq<nat>, k: nat, t: nat): Links {
    prev[Of(t) := NodeAt(l, s, k - 1)][NodeAt(l, s, k) := Of(t)]
  }

  function RemoveNext(next: Links, l: nat, s: seq<nat>, k: nat): Links {
    next[NodeAt(l, s, k - 1) := NodeAt(l, s, k + 1)][NodeAt(l, s, k) := Null]
  }

  function RemovePrev(prev: Links, l: nat, s: seq<nat>, k: nat): Links {
    prev[NodeAt(l, s, k + 1) := NodeAt(l, s, k - 1)][NodeAt(l, s, k) := Null]
  }

  lemma NodesDiffer(l: nat, s: seq<nat>, i: int, j: int)
    requires Distinct(s) && -1 <= i <= |s| && -1 <= j <= |s| && i != j
    ensures NodeAt(l, s, i) != NodeAt(l, s, j)
  {
  }

  lemma InsertedAt(l: nat, s: seq<nat>, k: nat, t: nat, i: int)
    requires k <= |s| && -1 <= i <= |s| + 1
    ensures NodeAt(l, Inserted(s, k, t), i)
            == if i < k then NodeAt(l, s, i) else if i == k then Of(t) else NodeAt(l, s, i - 1)
  {
  }

  lemma RemovedAt(l: nat, s: seq<nat>, k: nat, i: int)
    requires k < |s| && -1 <= i < |s|
    ensures NodeAt(l, Removed(s, k), i) == if i < k then NodeAt(l, s, i) else NodeAt(l, s, i + 1)
  {
  }

  /** Linking a node in keeps its list in order. */
  lemma InsertLink(next: Links, prev: Links, l: nat, s: seq<nat>, k: nat, t: nat, i: int)
    requires Distinct(s) && t !in s && k <= |s| && ListOk(next, prev, l, s) && -1 <= i <= |s|
    ensures LinkOk(InsertNext(next, l, s, k, t), InsertPrev(prev, l, s, k, t), l, Inserted(s, k, t), i)
  {
    hide ListOk, Distinct, Inserted;
    InsertedAt(l, s, k, t, i);
    InsertedAt(l, s, k, t, i + 1);
    var j := if i < k then i else i - 1;
    ListLink(next, prev, l, s, j);
    if i < k - 1 {
      NodesDiffer(l, s, i, k - 1);
      NodesDiffer(l, s, i + 1, k);
    }
    if i > k {
      NodesDiffer(l, s, i - 1, k - 1);
      NodesDiffer(l, s, i, k);
    }
    NodeNot(l, s, i, t);
    NodeNot(l, s, i + 1, t);
    NodeNot(l, s, i - 1, t);
    NodeNot(l, s, k, t);
    NodeNot(l, s, k - 1, t);
  }

  lemma ListLink(next: Links, prev: Links, l: nat, s: seq<nat>, i: int)
    requires ListOk(next, prev, l, s)
    ensures -1 <= i < |s| ==> LinkOk(next, prev, l, s, i)
  {
  }

  lemma NodeNot(l: nat, s: seq<nat>, i: int, t: nat)
    requires t !in s
    ensures NodeAt(l, s, i) != Of(t)
  {
  }

  lemma InsertEnds(next: Links, prev: Links, l: nat, s: seq<nat>, k: nat, t: nat)
    requires k <= |s| && ListOk(next, prev, l, s)
    ensures Get(InsertPrev(prev, l, s, k, t), Head(l)) == Null && Get(InsertNext(next, l, s, k, t), Tail(l)) == Null
  {
  }

  lemma InsertList(next: Links, prev: Links, l: nat, s: seq<nat>, k: nat, t: nat)
    requires Distinct(s) && t !in s && k <= |s| && ListOk(next, prev, l, s)
    ensures ListOk(InsertNext(next, l, s, k, t), InsertPrev(prev, l, s, k, t), l, Inserted(s, k, t))
  {
    InsertEnds(next, prev, l, s, k, t);
    forall i | -1 <= i <= |s|
      ensures LinkOk(InsertNext(next, l, s, k, t), InsertPrev(prev, l, s, k, t), l, Inserted(s, k, t), i)
    {
      InsertLink(next, prev, l, s, k, t, i);
    }
  }

  /** Nodes written to lie on list l or hold t, so a list without them is untouched. */
  lemma OtherList(next: Links, prev: Links, next': Links, prev': Links, m: nat, r: seq<nat>)
    requires ListOk(next, prev, m, r)
    requires forall n :: OnNode(m, r, n) ==> Get(next', n) == Get(next, n) && Get(prev', n) == Get(prev, n)
    ensures ListOk(next', prev', m, r)
  {
    assert OnNode(m, r, Head(m)) && OnNode(m, r, Tail(m));
    forall i | -1 <= i < |r| ensures LinkOk(next', prev', m, r, i) {
      assert LinkOk(next, prev, m, r, i);
      assert OnNode(m, r, NodeAt(m, r, i)) && OnNode(m, r, NodeAt(m, r, i + 1));
    }
  }

  predicate OnNode(m: nat, r: seq<nat>, n: Node) {
    n == Head(m) || n == Tail(m) || (n.Of? && n.thread in r)
  }

  lemma InsertOther(next: Links, prev: Links, c: Contents, l: nat, k: nat, t: nat, m: nat)
    requires Linked(next, prev, c) && l in c && k <= |c[l]| && Off(c, t) && m in c && m != l
    ensures ListOk(InsertNext(next, l, c[l], k, t), InsertPrev(prev, l, c[l], k, t), m, c[m])
  {
    OtherList(next, prev, InsertNext(next, l, c[l], k, t), InsertPrev(prev, l, c[l], k, t), m, c[m]);
  }

  lemma InsertApart(c: Contents, l: nat, k: nat, t: nat)
    requires Apart(c) && l in c && k <= |c[l]| && Off(c, t)
    ensures Apart(c[l := Inserted(c[l], k, t)])
  {
    assert forall x :: x in Inserted(c[l], k, t) <==> x == t || x in c[l];
  }

  lemma InsertOff(next: Links, prev: Links, c: Contents, l: nat, k: nat, t: nat, x: nat)
    requires Linked(next, prev, c) && l in c && k <= |c[l]| && Off(c[l := Inserted(c[l], k, t)], x)
    ensures Get(InsertNext(next, l, c[l], k, t), Of(x)) == Null && Get(InsertPrev(prev, l, c[l], k, t), Of(x)) == Null
  {
    var c' := c[l := Inserted(c[l], k, t)];
    assert x !in c'[l] && forall y :: y in Inserted(c[l], k, t) <==> y == t || y in c[l];
    assert Off(c, x) by {
      forall m | m in c ensures x !in c[m] {
        assert m in c' && x !in c'[m];
      }
    }
    NodeNot(l, c[l], k, x);
    NodeNot(l, c[l], k - 1, x);
  }

  /** Linking in a thread that is on no list keeps all lists linked up. */
  lemma InsertKeeps(next: Links, prev: Links, c: Contents, l: nat, k: nat, t: nat)
    requires Linked(next, prev, c) && l in c && k <= |c[l]| && Off(c, t)
    ensures Linked(InsertNext(next, l, c[l], k, t), InsertPrev(prev, l, c[l], k, t), c[l := Inserted(c[l], k, t)])
  {
    var next', prev' := InsertNext(next, l, c[l], k, t), InsertPrev(prev, l, c[l], k, t);
    var c' := c[l := Inserted(c[l], k, t)];
    InsertApart(c, l, k, t);
    forall m | m in c' ensures ListOk(next', prev', m, c'[m]) {
      if m == l { InsertList(next, prev, l, c[l], k, t); } else { InsertOther(next, prev, c, l, k, t, m); }
    }
    forall x | Off(c', x) ensures Get(next', Of(x)) == Null && Get(prev', Of(x)) == Null {
      InsertOff(next, prev, c, l, k, t, x);
    }
  }

  /** Linking a node out keeps its list in order. */
  lemma RemoveLink(next: Links, prev: Links, l: nat, s: seq<nat>, k: nat, i: int)
    requires Distinct(s) && k < |s| && ListOk(next, prev, l, s) && -1 <= i < |s| - 1
    ensures LinkOk(RemoveNext(next, l, s, k), RemovePrev(prev, l, s, k), l, Removed(s, k), i)
  {
    hide ListOk, Distinct, Removed;
    RemovedAt(l, s, k, i);
    RemovedAt(l, s, k, i + 1);
    var j := if i < k then i else i + 1;
    ListLink(next, prev, l, s, j);
    if j != k - 1 {
      NodesDiffer(l, s, j, k - 1);
      NodesDiffer(l, s, j + 1, k + 1);
    }
    NodesDiffer(l, s, j, k);
    NodesDiffer(l, s, k + 1, k);
    NodesDiffer(l, s, k - 1, k);
    if j + 1 != k {
      NodesDiffer(l, s, j + 1, k);
    }
  }

  lemma RemoveEnds(next: Links, prev: Links, l: nat, s: seq<nat>, k: nat)
    requires k < |s| && ListOk(next, prev, l, s)
    ensures Get(RemovePrev(prev, l, s, k), Head(l)) == Null && Get(RemoveNext(next, l, s, k), Tail(l)) == Null
  {
  }

  lemma RemoveList(next: Links, prev: Links, l: nat, s: seq<nat>, k: nat)
    requires Distinct(s) && k < |s| && ListOk(next, prev, l, s)
    ensures ListOk(RemoveNext(next, l, s, k), RemovePrev(prev, l, s, k), l, Removed(s, k))
  {
    RemoveEnds(next, prev, l, s, k);
    forall i | -1 <= i < |s| - 1
      ensures LinkOk(RemoveNext(next, l, s, k), RemovePrev(prev, l, s, k), l, Removed(s, k), i)
    {
      RemoveLink(next, prev, l, s, k, i);
    }
  }

  lemma RemoveOther(next: Links, prev: Links, c: Contents, l: nat, k: nat, m: nat)
    requires Linked(next, prev, c) && l in c && k < |c[l]| && m in c && m != l
    ensures ListOk(RemoveNext(next, l, c[l], k), RemovePrev(prev, l, c[l], k), m, c[m])
  {
    OtherList(next, prev, RemoveNext(next, l, c[l], k), RemovePrev(prev, l, c[l], k), m, c[m]);
  }

  /** What is left after removal: everything but the thread removed. */
  lemma RemovedElements(s: seq<nat>, k: nat, x: nat)
    requires Distinct(s) && k < |s|
    ensures x in Removed(s, k) <==> x in s && x != s[k]
    ensures Distinct(Removed(s, k))
  {
    var r := Removed(s, k);
    assert forall i :: 0 <= i < |r| ==> r[i] == if i < k then s[i] else s[i + 1];
    if x in s && x != s[k] {
      var i :| 0 <= i < |s| && s[i] == x;
      assert r[if i < k then i else i - 1] == x;
    }
  }

  lemma RemoveApart(c: Contents, l: nat, k: nat)
    requires Apart(c) && l in c && k < |c[l]|
    ensures Apart(c[l := Removed(c[l], k)])
  {
    forall x ensures x in Removed(c[l], k) ==> x in c[l] {
      RemovedElements(c[l], k, x);
    }
    RemovedElements(c[l], k, 0);
  }

  lemma RemoveOff(next: Links, prev: Links, c: Contents, l: nat, k: nat, x: nat)
    requires Linked(next, prev, c) && l in c && k < |c[l]| && Off(c[l := Removed(c[l], k)], x)
    ensures Get(RemoveNext(next, l, c[l], k), Of(x)) == Null && Get(RemovePrev(prev, l, c[l], k), Of(x)) == Null
  {
    var c', s := c[l := Removed(c[l], k)], c[l];
    RemovedElements(s, k, x);
    assert x !in c'[l];
    if x != s[k] {
      assert Off(c, x) by {
        forall m | m in c ensures x !in c[m] {
          assert m in c' && x !in c'[m];
        }
      }
      NodeNot(l, s, k - 1, x);
      NodeNot(l, s, k + 1, x);
    }
  }

  /** Linking a thread out keeps all lists linked up. */
  lemma RemoveKeeps(next: Links, prev: Links, c: Contents, l: nat, k: nat)
    requires Linked(next, prev, c) && l in c && k < |c[l]|
    ensures Linked(RemoveNext(next, l, c[l], k), RemovePrev(prev, l, c[l], k), c[l := Removed(c[l], k)])
  {
    var next', prev', c' := RemoveNext(next, l, c[l], k), RemovePrev(prev, l, c[l], k), c[l := Removed(c[l], k)];
    RemoveApart(c, l, k);
    forall m | m in c' ensures ListOk(next', prev', m, c'[m]) {
      if m == l { RemoveList(next, prev, l, c[l], k); } else { RemoveOther(next, prev, c, l, k, m); }
    }
    forall x | Off(c', x) ensures Get(next', Of(x)) == Null && Get(prev', Of(x)) == Null {
      RemoveOff(next, prev, c, l, k, x);
    }
  }

  ghost function IndexOf(s: seq<nat>, t: nat): (k: nat)
    requires t in s
    ensures k < |s| && s[k] == t
  {
    if s[0] == t then 0 else 1 + IndexOf(s[1..], t)
  }

  lemma LinksAround(next: Links, prev: Links, c: Contents, l: nat, k: int)
    requires Linked(next, prev, c) && l in c && -1 <= k < |c[l]|
    ensures LinkOk(next, prev, l, c[l], k)
  {
    assert ListOk(next, prev, l, c[l]);
  }

  lemma Unlinked(next: Links, prev: Links, c: Contents, t: nat)
    requires Linked(next, prev, c) && Off(c, t)
    ensures Get(next, Of(t)) == Null && Get(prev, Of(t)) == Null
  {
  }

  /** A thread is on no list exactly when its node is unlinked. */
  lemma OffUnlinked(next: Links, prev: Links, c: Contents, t: nat)
    requires Linked(next, prev, c)
    ensures Off(c, t) <==> Get(prev, Of(t)) == Null
  {
    if !Off(c, t) {
      var l :| l in c && t in c[l];
      var k :| 0 <= k < |c[l]| && c[l][k] == t;
      LinksAround(next, prev, c, l, k - 1);
      assert NodeAt(l, c[l], k) == Of(t) && NodeAt(l, c[l], k - 1) != Null;
    }
  }

  lemma NodesApart(next: Links, prev: Links, c: Contents, l: nat, i: int, j: int)
    requires Linked(next, prev, c) && l in c && -1 <= i <= |c[l]| && -1 <= j <= |c[l]| && i != j
    ensures NodeAt(l, c[l], i) != NodeAt(l, c[l], j)
  {
    NodesDiffer(l, c[l], i, j);
  }

  lemma EmptyList(next: Links, prev: Links, c: Contents, l: nat)
    requires Linked(next, prev, c) && l !in c
    ensures Linked(next[Head(l) := Tail(l)][Tail(l) := Null], prev[Head(l) := Null][Tail(l) := Head(l)], c[l := []])
  {
    var next', prev' := next[Head(l) := Tail(l)][Tail(l) := Null], prev[Head(l) := Null][Tail(l) := Head(l)];
    var c' := c[l := []];
    forall m | m in c' ensures ListOk(next', prev', m, c'[m]) {
      if m != l { OtherList(next, prev, next', prev', m, c[m]); }
    }
    forall t | Off(c', t) ensures Off(c, t) {
      forall m | m in c ensures t !in c[m] { assert m in c' && t !in c'[m]; }
    }
  }

  lemma DropEmpty(next: Links, prev: Links, c: Contents, l: nat)
    requires Linked(next, prev, c) && l in c && c[l] == []
    ensures Linked(next, prev, c - {l})
  {
    var c' := c - {l};
    forall t | Off(c', t) ensures Off(c, t) {
      forall m | m in c ensures t !in c[m] { assert m != l ==> m in c' && t !in c'[m]; }
    }
  }

  /** All thread lists of the machine, by number; tl_count is in count. */
  class Lists {
    var next: Links
    var prev: Links
    var count: map<nat, nat>
    ghost var c: Contents

    ghost predicate Valid()
      reads this
    {
      Linked(next, prev, c) && count.Keys == c.Keys && forall l :: l in c ==> count[l] == |c[l]|
    }

    constructor ()
      ensures Valid() && c == map[]
    {
      next, prev, count, c := map[], map[], map[], map[];
    }

    /** threadlist_init. */
    method Init(l: nat)
      requires Valid() && l !in c
      modifies this
      ensures Valid() && c == old(c)[l := []]
    {
      hide Linked;
      EmptyList(next, prev, c, l);
      next := next[Head(l) := Tail(l)][Tail(l) := Null];
      prev := prev[Head(l) := Null][Tail(l) := Head(l)];
      count, c := count[l := 0], c[l := []];
    }

    /** threadlist_cleanup. */
    method Cleanup(l: nat)
      requires Valid() && l in c && c[l] == []
      modifies this`count, this`c
      ensures Valid() && c == old(c) - {l}
    {
      hide Linked;
      LinksAround(next, prev, c, l, -1);
      assert Get(next, Head(l)) == Tail(l) && Get(prev, Tail(l)) == Head(l) && count[l] == 0;
      DropEmpty(next, prev, c, l);
      count, c := count - {l}, c - {l};
    }

    method IsEmpty(l: nat) returns (b: bool)
      requires Valid() && l in c
      ensures b <==> c[l] == []
    {
      b := count[l] == 0;
    }

    /** threadlist_insertafternode; onlist is the node before position k of list l. */
    method InsertAfterNode(onlist: Node, t: nat, ghost l: nat, ghost k: nat)
      requires Linked(next, prev, c) && l in c && k <= |c[l]| && onlist == NodeAt(l, c[l], k - 1) && Off(c, t)
      modifies this`next, this`prev
      ensures next == InsertNext(old(next), l, c[l], k, t) && prev == InsertPrev(old(prev), l, c[l], k, t)
    {
      hide Linked, Off;
      Unlinked(next, prev, c, t);
      LinksAround(next, prev, c, l, k - 1);
      var addee := Of(t);
      assert Get(prev, addee) == Null && Get(next, addee) == Null;
      prev := prev[addee := onlist];
      next := next[addee := Get(next, onlist)];
      next := next[Get(prev, addee) := addee];
      prev := prev[Get(next, addee) := addee];
    }

    /** threadlist_insertbeforenode; onlist is the node at position k of list l. */
    method InsertBeforeNode(t: nat, onlist: Node, ghost l: nat, ghost k: nat)
      requires Linked(next, prev, c) && l in c && k <= |c[l]| && onlist == NodeAt(l, c[l], k) && Off(c, t)
      modifies this`next, this`prev
      ensures next == InsertNext(old(next), l, c[l], k, t) && prev == InsertPrev(old(prev), l, c[l], k, t)
    {
      hide Linked, Off;
      Unlinked(next, prev, c, t);
      LinksAround(next, prev, c, l, k - 1);
      var addee := Of(t);
      assert Get(prev, addee) == Null && Get(next, addee) == Null;
      prev := prev[addee := Get(prev, onlist)];
      next := next[addee := onlist];
      next := next[Get(prev, addee) := addee];
      prev := prev[Get(next, addee) := addee];
    }

    /** threadlist_removenode, for the node at position k of list l. */
    method RemoveNode(tln: Node, ghost l: nat, ghost k: nat)
      requires Linked(next, prev, c) && l in c && k < |c[l]| && tln == NodeAt(l, c[l], k)
      modifies this`next, this`prev
      ensures next == RemoveNext(old(next), l, c[l], k) && prev == RemovePrev(old(prev), l, c[l], k)
    {
      hide Linked;
      LinksAround(next, prev, c, l, k - 1);
      LinksAround(next, prev, c, l, k);
      NodesApart(next, prev, c, l, k - 1, k);
      NodesApart(next, prev, c, l, k + 1, k);
      assert Get(prev, tln) != Null && Get(next, tln) != Null;
      next := next[Get(prev, tln) := Get(next, tln)];
      prev := prev[Get(next, tln) := Get(prev, tln)];
      prev := prev[tln := Null];
      next := next[tln := Null];
    }

    /** threadlist_addhead. */
    method AddHead(l: nat, t: nat)
      requires Valid() && l in c && Off(c, t)
      modifies this
      ensures Valid() && c == old(c)[l := [t] + old(c)[l]]
    {
      hide Linked;
      InsertKeeps(next, prev, c, l, 0, t);
      InsertAfterNode(Head(l), t, l, 0);
      assert Inserted(c[l], 0, t) == [t] + c[l];
      count, c := count[l := count[l] + 1], c[l := [t] + c[l]];
    }

    /** threadlist_addtail. */
    method AddTail(l: nat, t: nat)
      requires Valid() && l in c && Off(c, t)
      modifies this
      ensures Valid() && c == old(c)[l := old(c)[l] + [t]]
    {
      hide Linked;
      InsertKeeps(next, prev, c, l, |c[l]|, t);
      InsertBeforeNode(t, Tail(l), l, |c[l]|);
      assert Inserted(c[l], |c[l]|, t) == c[l] + [t];
      count, c := count[l := count[l] + 1], c[l := c[l] + [t]];
    }

    /** threadlist_insertafter. */
    method InsertAfter(l: nat, onlist: nat, t: nat)
      requires Valid() && l in c && onlist in c[l] && Off(c, t)
      modifies this
      ensures Valid() && c == old(c)[l := Inserted(old(c)[l], IndexOf(old(c)[l], onlist) + 1, t)]
    {
      hide Linked, Inserted;
      ghost var k := IndexOf(c[l], onlist) + 1;
      InsertKeeps(next, prev, c, l, k, t);
      InsertAfterNode(Of(onlist), t, l, k);
      count, c := count[l := count[l] + 1], c[l := Inserted(c[l], k, t)];
    }

    /** threadlist_insertbefore. */
    method InsertBefore(l: nat, t: nat, onlist: nat)
      requires Valid() && l in c && onlist in c[l] && Off(c, t)
      modifies this
      ensures Valid() && c == old(c)[l := Inserted(old(c)[l], IndexOf(old(c)[l], onlist), t)]
    {
      hide Linked, Inserted;
      ghost var k := IndexOf(c[l], onlist);
      InsertKeeps(next, prev, c, l, k, t);
      InsertBeforeNode(t, Of(onlist), l, k);
      count, c := count[l := count[l] + 1], c[l := Inserted(c[l], k, t)];
    }

    /** threadlist_remhead; None for NULL. */
    method RemHead(l: nat) returns (r: Option<nat>)
      requires Valid() && l in c
      modifies this
      ensures Valid() && (r.None? <==> old(c)[l] == [])
      ensures c == if r.None? then old(c) else old(c)[l := old(c)[l][1..]]
      ensures r.Some? ==> r.value == old(c)[l][0]
    {
      hide Linked;
      LinksAround(next, prev, c, l, -1);
      var tln := Get(next, Head(l));
      FirstNext(next, prev, c, l);
      if Get(next, tln) == Null {
        return None;
      }
      RemoveKeeps(next, prev, c, l, 0);
      RemoveNode(tln, l, 0);
      assert Removed(c[l], 0) == c[l][1..] && count[l] > 0;
      count, c := count[l := count[l] - 1], c[l := c[l][1..]];
      r := Some(tln.thread);
    }

    /** threadlist_remtail; None for NULL. */
    method RemTail(l: nat) returns (r: Option<nat>)
      requires Valid() && l in c
      modifies this
      ensures Valid() && (r.None? <==> old(c)[l] == [])
      ensures c == if r.None? then old(c) else old(c)[l := old(c)[l][..|old(c)[l]| - 1]]
      ensures r.Some? ==> r.value == old(c)[l][|old(c)[l]| - 1]
    {
      hide Linked;
      ghost var k := |c[l]| - 1;
      LinksAround(next, prev, c, l, k);
      var tln := Get(prev, Tail(l));
      LastPrev(next, prev, c, l);
      if Get(prev, tln) == Null {
        return None;
      }
      RemoveKeeps(next, prev, c, l, k);
      RemoveNode(tln, l, k);
      assert Removed(c[l], k) == c[l][..k] && count[l] > 0;
      count, c := count[l := count[l] - 1], c[l := c[l][..k]];
      r := Some(tln.thread);
    }

    /** threadlist_remove. */
    method Remove(l: nat, t: nat)
      requires Valid() && l in c && t in c[l]
      modifies this
      ensures Valid() && c == old(c)[l := Removed(old(c)[l], IndexOf(old(c)[l], t))]
    {
      hide Linked, Removed;
      ghost var k := IndexOf(c[l], t);
      RemoveKeeps(next, prev, c, l, k);
      RemoveNode(Of(t), l, k);
      assert count[l] > 0;
      count, c := count[l := count[l] - 1], c[l := Removed(c[l], k)];
    }

    /** The walk in schedule to the thread at a position. */
    method WalkTo(l: nat, k: nat) returns (t: nat)
      requires Valid() && l in c && k < |c[l]|
      ensures t == c[l][k]
    {
      hide Linked;
      LinksAround(next, prev, c, l, -1);
      t := Get(next, Head(l)).thread;
      for i := 0 to k
        invariant t == c[l][i]
      {
        LinksAround(next, prev, c, l, i);
        t := Get(next, Of(t)).thread;
      }
    }

    /** The scan in schedule and thread_consider_migration: walks until tl_count nodes have been seen, and finds
        the first of the threads with the lowest priority value. */
    method FindLowest(l: nat, priority: nat -> int) returns (t: nat)
      requires Valid() && l in c && c[l] != []
      ensures FirstLowest(c[l], priority, t)
    {
      hide Linked, Apart;
      ghost var s := c[l];
      LinksAround(next, prev, c, l, -1);
      var cur := Get(next, Head(l));
      t := cur.thread;
      var j := 0;
      ghost var k := 0;
      LinksAround(next, prev, c, l, 0);
      while Get(next, cur) != Null
        invariant 0 <= j < |s| && cur == Of(s[j]) && 0 <= k < |s| && t == s[k]
        invariant forall i :: 0 <= i < j ==> priority(s[k]) <= priority(s[i])
        invariant forall i :: 0 <= i < k ==> priority(s[k]) < priority(s[i])
        invariant k <= j && LinkOk(next, prev, l, s, j)
        decreases |s| - j
      {
        j := j + 1;
        if priority(cur.thread) < priority(t) {
          t := cur.thread;
          k := j - 1;
        }
        if j == count[l] {
          break;
        }
        cur := Get(next, cur);
        assert cur.Of?;
        LinksAround(next, prev, c, l, j);
      }
      assert LowestAt(s, priority, k);
    }
  }

  /** t has the lowest priority value of the threads in s, and comes first among those. */
  ghost predicate FirstLowest(s: seq<nat>, priority: nat -> int, t: nat) {
    exists k :: 0 <= k < |s| && s[k] == t && LowestAt(s, priority, k)
  }

  ghost predicate LowestAt(s: seq<nat>, priority: nat -> int, k: nat)
    requires k < |s|
  {
    && (forall i :: 0 <= i < |s| ==> priority(s[k]) <= priority(s[i]))
    && (forall i :: 0 <= i < k ==> priority(s[k]) < priority(s[i]))
  }

  lemma FirstNext(next: Links, prev: Links, c: Contents, l: nat)
    requires Linked(next, prev, c) && l in c
    ensures Get(next, NodeAt(l, c[l], 0)) == Null <==> c[l] == []
  {
    assert ListOk(next, prev, l, c[l]);
    if c[l] != [] { LinksAround(next, prev, c, l, 0); }
  }

  lemma LastPrev(next: Links, prev: Links, c: Contents, l: nat)
    requires Linked(next, prev, c) && l in c
    ensures Get(prev, NodeAt(l, c[l], |c[l]| - 1)) == Null <==> c[l] == []
  {
    assert ListOk(next, prev, l, c[l]);
    if c[l] != [] { LinksAround(next, prev, c, l, |c[l]| - 2); }
  }
}
