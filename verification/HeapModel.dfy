/**
 What the subpage allocator's data mean: blocks, per-page free lists threaded
 through the free blocks, the blocks handed out, and the page runs obtained
 from the page allocator. Operations on these values keep the invariant.
 */
module HeapModel {
  import opened Common
  import opened PageRefs

  const ADDRESS_LIMIT := 0x1_0000_0000

  function Size(t: int): int
    requires 0 <= t < NSIZES
  {
    [16, 32, 64, 128, 256, 512, 1024, 2048][t]
  }

  predicate ValidType(pr: PageRef) { 0 <= BlockType(pr) < NSIZES }

  /** a is the address of a block of pr's page. */
  predicate BlockOf(a: int, pr: PageRef) {
    ValidType(pr) && PageAddr(pr) <= a < PageAddr(pr) + PAGE_SIZE
    && (a - PageAddr(pr)) % Size(BlockType(pr)) == 0
  }

  /** The word at free block i leads to the next one; the last holds 0. */
  ghost predicate LinkOk(mem: map<int, int>, fl: seq<int>, i: nat)
    requires i < |fl|
  {
    fl[i] in mem && mem[fl[i]] == if i + 1 < |fl| then fl[i + 1] else 0
  }

  ghost predicate FreeChain(mem: map<int, int>, fl: seq<int>) {
    forall i :: 0 <= i < |fl| ==> LinkOk(mem, fl, i)
  }

  /** The free list of a page: acyclic, inside the page, block-aligned, of length nfree. */
  ghost predicate PageOk(pr: PageRef, fl: seq<int>, mem: map<int, int>) {
    && ValidType(pr) && PageAddr(pr) > 0
    && pr.nfree == |fl|
    && pr.flOffset == (if fl == [] then INVALID_OFFSET else fl[0] - PageAddr(pr))
    && Distinct(fl)
    && (forall i :: 0 <= i < |fl| ==> BlockOf(fl[i], pr))
    && FreeChain(mem, fl)
  }

  /** Who a run of pages from the page allocator belongs to at the moment. */
  datatype Owner = Page(ref: int) | Big | InFlight
  datatype Run = Run(npages: nat, owner: Owner)

  /** prs: page records; all: those in use; fls: their free lists; mem: words of memory;
      sub: blocks handed out, with the record of their page; runs: page runs outstanding. */
  datatype Heap = Heap(prs: seq<PageRef>, all: seq<int>, fls: map<int, seq<int>>,
                       mem: map<int, int>, sub: map<int, int>, runs: map<int, Run>)

  /** Bytes a run keeps to itself; an empty run still has an address of its own. */
  function Extent(r: Run): int { (if r.npages == 0 then 1 else r.npages) * PAGE_SIZE }

  ghost predicate FreeListsOk(h: Heap) {
    && (forall i :: i in h.all <==> i in h.fls)
    && (forall i :: i in h.fls ==> 0 <= i < |h.prs| && PageOk(h.prs[i], h.fls[i], h.mem))
  }

  /** Free and live blocks partition each page, and every live block is on some page. */
  ghost predicate Partitioned(h: Heap) {
    && (forall i, a :: i in h.fls && 0 <= i < |h.prs| && BlockOf(a, h.prs[i]) ==> (a in h.fls[i] <==> a !in h.sub))
    && (forall a :: a in h.sub ==> h.sub[a] in h.fls && 0 <= h.sub[a] < |h.prs| && BlockOf(a, h.prs[h.sub[a]]))
  }

  ghost predicate RunsOk(runs: map<int, Run>) {
    && (forall a :: a in runs ==> 0 < a && a % PAGE_SIZE == 0 && a + Extent(runs[a]) <= ADDRESS_LIMIT)
    && (forall a, b :: a in runs && b in runs && a < b ==> a + Extent(runs[a]) <= b)
  }

  /** Each page record owns one run of one page, and each such run has its record. */
  ghost predicate OwnersOk(h: Heap) {
    && (forall i :: i in h.fls && 0 <= i < |h.prs| ==>
          PageAddr(h.prs[i]) in h.runs && h.runs[PageAddr(h.prs[i])] == Run(1, Page(i)))
    && (forall a :: a in h.runs && h.runs[a].owner.Page? ==>
          && h.runs[a].owner.ref in h.fls && 0 <= h.runs[a].owner.ref < |h.prs|
          && PageAddr(h.prs[h.runs[a].owner.ref]) == a)
  }

  ghost predicate Inv(h: Heap) {
    FreeListsOk(h) && Partitioned(h) && RunsOk(h.runs) && OwnersOk(h)
  }

  // ---------------------------------------------------------------- what is live

  ghost predicate Live(h: Heap, a: int) {
    a in h.sub || (a in h.runs && h.runs[a].owner.Big?)
  }

  ghost function LiveSize(h: Heap, a: int): int {
    if a in h.sub && 0 <= h.sub[a] < |h.prs| && ValidType(h.prs[h.sub[a]]) then Size(BlockType(h.prs[h.sub[a]]))
    else if a in h.runs then h.runs[a].npages * PAGE_SIZE
    else 0
  }

  /** The live blocks and their sizes: what the callers of the allocator hold. */
  ghost function LiveBlocks(h: Heap): map<int, int> {
    map a | a in h.sub.Keys + h.runs.Keys && Live(h, a) :: LiveSize(h, a)
  }

  /** Records keep their block type, and the runs held by callers stay the same. */
  ghost predicate SameHoldings(h: Heap, h': Heap) {
    && |h.prs| == |h'.prs|
    && (forall a :: a in h.sub && a in h'.sub ==>
          && h.sub[a] == h'.sub[a] && 0 <= h.sub[a] < |h.prs|
          && h.prs[h.sub[a]].pab == h'.prs[h.sub[a]].pab && ValidType(h.prs[h.sub[a]]))
    && (forall a :: a in h.runs && h.runs[a].owner.Big? ==> a in h'.runs && h'.runs[a] == h.runs[a])
    && (forall a :: a in h'.runs && h'.runs[a].owner.Big? ==> a in h.runs && h'.runs[a] == h.runs[a])
  }

  lemma SameLive(h: Heap, h': Heap)
    requires SameHoldings(h, h') && h.sub == h'.sub
    ensures LiveBlocks(h) == LiveBlocks(h')
  {
  }

  lemma BlockInPage(a: int, pr: PageRef)
    requires BlockOf(a, pr)
    ensures PageAddr(pr) <= a && a + Size(BlockType(pr)) <= PageAddr(pr) + PAGE_SIZE
  {
  }

  lemma BlocksApart(a: int, b: int, pr: PageRef)
    requires BlockOf(a, pr) && BlockOf(b, pr) && a < b
    ensures a + Size(BlockType(pr)) <= b
  {
  }

  /** A live subpage block lies within a run of one page owned by its record. */
  lemma SubInRun(h: Heap, a: int)
    requires Inv(h) && a in h.sub
    ensures var pa := PageAddr(h.prs[h.sub[a]]);
            pa in h.runs && h.runs[pa] == Run(1, Page(h.sub[a])) && pa <= a && a + LiveSize(h, a) <= pa + PAGE_SIZE
  {
    BlockInPage(a, h.prs[h.sub[a]]);
  }

  /** No two live blocks overlap, whether they are subpage blocks or whole runs. */
  lemma LiveDisjoint(h: Heap, a: int, b: int)
    requires Inv(h) && Live(h, a) && Live(h, b) && a < b
    ensures a + LiveSize(h, a) <= b
  {
    if a in h.sub { SubInRun(h, a); }
    if b in h.sub { SubInRun(h, b); }
    var ra := if a in h.sub then PageAddr(h.prs[h.sub[a]]) else a;
    var rb := if b in h.sub then PageAddr(h.prs[h.sub[b]]) else b;
    if ra == rb {
      BlocksApart(a, b, h.prs[h.sub[a]]);
    }
  }

  // ---------------------------------------------------------------- taking a block

  function Popped(pr: PageRef, fl: seq<int>): PageRef
    requires fl != []
  {
    pr.(nfree := pr.nfree - 1,
        flOffset := if |fl| > 1 then fl[1] - PageAddr(pr) else INVALID_OFFSET)
  }

  ghost function Take(h: Heap, i: int): Heap
    requires i in h.fls && 0 <= i < |h.prs| && h.fls[i] != []
  {
    h.(prs := h.prs[i := Popped(h.prs[i], h.fls[i])],
       fls := h.fls[i := h.fls[i][1..]],
       sub := h.sub[h.fls[i][0] := i])
  }

  lemma TakeKeeps(h: Heap, i: int)
    requires Inv(h) && i in h.fls && h.fls[i] != []
    ensures Inv(Take(h, i)) && BlockOf(h.fls[i][0], h.prs[i])
    ensures !Live(h, h.fls[i][0])
    ensures LiveBlocks(Take(h, i)) == LiveBlocks(h)[h.fls[i][0] := Size(BlockType(h.prs[i]))]
  {
    hide *;
    TakeIndexes(h, i);
    TakePartition(h, i);
    TakeHoldings(h, i);
    TakeLive(h, i);
  }

  lemma TakeIndexes(h: Heap, i: int)
    requires Inv(h) && i in h.fls && h.fls[i] != []
    ensures 0 <= i < |h.prs| && ValidType(h.prs[i])
    ensures Partitioned(Take(h, i)) ==> Inv(Take(h, i))
  {
    hide Partitioned;
    PopOk(h.prs[i], h.fls[i], h.mem);
    assert OwnersOk(Take(h, i));
  }

  lemma TakeHoldings(h: Heap, i: int)
    requires Inv(h) && i in h.fls && h.fls[i] != []
    ensures BlockOf(h.fls[i][0], h.prs[i]) && !Live(h, h.fls[i][0]) && SameHoldings(h, Take(h, i))
  {
    var a := h.fls[i][0];
    assert BlockOf(a, h.prs[i]) && a in h.fls[i];
    assert !Live(h, a) by { if a in h.runs { assert a == PageAddr(h.prs[i]); } }
  }

  lemma TakeLive(h: Heap, i: int)
    requires i in h.fls && 0 <= i < |h.prs| && h.fls[i] != [] && ValidType(h.prs[i])
    requires !Live(h, h.fls[i][0]) && SameHoldings(h, Take(h, i))
    ensures LiveBlocks(Take(h, i)) == LiveBlocks(h)[h.fls[i][0] := Size(BlockType(h.prs[i]))]
  {
    hide *;
    TakeAddresses(h, i);
    TakeSizes(h, i);
    OneMoreLive(h, Take(h, i), h.fls[i][0]);
  }

  /** The same addresses are live, and the one taken. */
  lemma TakeAddresses(h: Heap, i: int)
    requires i in h.fls && 0 <= i < |h.prs| && h.fls[i] != []
    ensures forall b :: Live(Take(h, i), b) <==> b == h.fls[i][0] || Live(h, b)
  {
  }

  /** Live blocks keep their sizes, and the one taken has that of its page. */
  lemma TakeSizes(h: Heap, i: int)
    requires i in h.fls && 0 <= i < |h.prs| && h.fls[i] != [] && ValidType(h.prs[i])
    requires !Live(h, h.fls[i][0]) && SameHoldings(h, Take(h, i))
    ensures forall b :: Live(h, b) ==> LiveSize(Take(h, i), b) == LiveSize(h, b)
    ensures LiveSize(Take(h, i), h.fls[i][0]) == Size(BlockType(h.prs[i]))
  {
    var h' := Take(h, i);
    forall b | Live(h, b) ensures LiveSize(h', b) == LiveSize(h, b) {
      if b in h.sub { assert b in h'.sub; }
    }
  }

  lemma OneMoreLive(h: Heap, h': Heap, a: int)
    requires forall b :: Live(h', b) <==> b == a || Live(h, b)
    requires !Live(h, a) && forall b :: Live(h, b) ==> LiveSize(h', b) == LiveSize(h, b)
    ensures LiveBlocks(h') == LiveBlocks(h)[a := LiveSize(h', a)]
  {
    hide LiveSize;
    LiveKeys(h);
    LiveKeys(h');
  }

  lemma LiveKeys(h: Heap)
    ensures forall b :: b in LiveBlocks(h) <==> Live(h, b)
    ensures forall b :: b in LiveBlocks(h) ==> LiveBlocks(h)[b] == LiveSize(h, b)
  {
  }

  lemma TakePartition(h: Heap, i: int)
    requires Inv(h) && i in h.fls && h.fls[i] != []
    ensures Partitioned(Take(h, i))
  {
    var h', fl, a := Take(h, i), h.fls[i], h.fls[i][0];
    assert BlockOf(a, h.prs[i]) && a in h.fls[i];
    forall j, b | j in h'.fls && 0 <= j < |h'.prs| && BlockOf(b, h'.prs[j])
      ensures b in h'.fls[j] <==> b !in h'.sub
    {
      assert BlockOf(b, h.prs[j]);
      if j == i {
        assert fl == [a] + fl[1..];
        assert a !in fl[1..];
      } else if b == a {
        OnePage(h, i, j, a);
      }
    }
  }

  lemma PopOk(pr: PageRef, fl: seq<int>, mem: map<int, int>)
    requires PageOk(pr, fl, mem) && fl != []
    ensures PageOk(Popped(pr, fl), fl[1..], mem)
  {
    var t := fl[1..];
    forall i | 0 <= i < |t| ensures LinkOk(mem, t, i) { assert LinkOk(mem, fl, i + 1); }
  }

  /** An address lies on at most one page. */
  lemma OnePage(h: Heap, i: int, j: int, a: int)
    requires Inv(h) && i in h.fls && j in h.fls
    requires BlockOf(a, h.prs[i]) && BlockOf(a, h.prs[j])
    ensures i == j
  {
    var p, q := PageAddr(h.prs[i]), PageAddr(h.prs[j]);
    assert h.runs[p].owner == Page(i) && h.runs[q].owner == Page(j);
    assert p == q;
  }

  // ---------------------------------------------------------------- writes to memory

  /** mem' differs from mem only inside [lo, hi). */
  ghost predicate OnlyWithin(mem: map<int, int>, mem': map<int, int>, lo: int, hi: int) {
    forall w :: w in mem && !(lo <= w < hi) ==> w in mem' && mem'[w] == mem[w]
  }

  /** A free list none of whose blocks starts in the written range survives. */
  lemma ChainSurvives(mem: map<int, int>, mem': map<int, int>, fl: seq<int>, lo: int, hi: int)
    requires FreeChain(mem, fl) && OnlyWithin(mem, mem', lo, hi)
    requires forall i :: 0 <= i < |fl| ==> !(lo <= fl[i] < hi)
    ensures FreeChain(mem', fl)
  {
    forall i | 0 <= i < |fl| ensures LinkOk(mem', fl, i) { assert LinkOk(mem, fl, i); }
  }

  /** No free block starts inside a live block. */
  lemma FreeOutsideLive(h: Heap, a: int, i: int, k: nat)
    requires Inv(h) && Live(h, a) && i in h.fls && k < |h.fls[i]|
    ensures !(a <= h.fls[i][k] < a + LiveSize(h, a))
  {
    var f := h.fls[i][k];
    assert BlockOf(f, h.prs[i]) && f in h.fls[i];
    BlockInPage(f, h.prs[i]);
    var p := PageAddr(h.prs[i]);
    assert h.runs[p] == Run(1, Page(i));
    if a in h.sub {
      SubInRun(h, a);
      var q := PageAddr(h.prs[h.sub[a]]);
      if q == p && a < f { BlocksApart(a, f, h.prs[i]); }
    }
  }

  /** Whatever the holder of a live block writes into it, the invariant stays. */
  lemma LiveWriteKeeps(h: Heap, a: int, mem': map<int, int>)
    requires Inv(h) && Live(h, a)
    requires OnlyWithin(h.mem, mem', a, a + LiveSize(h, a))
    ensures Inv(h.(mem := mem')) && LiveBlocks(h.(mem := mem')) == LiveBlocks(h)
  {
    var h' := h.(mem := mem');
    forall i | i in h.fls ensures PageOk(h.prs[i], h.fls[i], mem') {
      forall k | 0 <= k < |h.fls[i]| ensures !(a <= h.fls[i][k] < a + LiveSize(h, a)) {
        FreeOutsideLive(h, a, i, k);
      }
      ChainSurvives(h.mem, mem', h.fls[i], a, a + LiveSize(h, a));
    }
    NewMemory(h, mem');
    SameLive(h, h');
  }

  lemma NewMemory(h: Heap, mem': map<int, int>)
    requires Inv(h) && forall i :: i in h.fls ==> 0 <= i < |h.prs| && PageOk(h.prs[i], h.fls[i], mem')
    ensures Inv(h.(mem := mem')) && SameHoldings(h, h.(mem := mem'))
  {
    var h' := h.(mem := mem');
    assert FreeListsOk(h');
    assert Partitioned(h');
  }

  // ---------------------------------------------------------------- giving a block back

  function Pushed(pr: PageRef, a: int): PageRef {
    pr.(nfree := pr.nfree + 1, flOffset := a - PageAddr(pr))
  }

  ghost function Give(h: Heap, a: int): Heap
    requires a in h.sub && h.sub[a] in h.fls && 0 <= h.sub[a] < |h.prs|
  {
    var i := h.sub[a];
    h.(prs := h.prs[i := Pushed(h.prs[i], a)], fls := h.fls[i := [a] + h.fls[i]], sub := h.sub - {a})
  }

  /** The block's first word already holds the link to the old head. */
  lemma GiveKeeps(h: Heap, a: int)
    requires Inv(h) && a in h.sub
    requires a in h.mem && h.mem[a] == (if h.fls[h.sub[a]] == [] then 0 else h.fls[h.sub[a]][0])
    ensures Inv(Give(h, a))
    ensures LiveBlocks(Give(h, a)) == LiveBlocks(h) - {a}
  {
    GiveLists(h, a);
    GivePartition(h, a);
    GiveOwners(h, a);
    SubNotBig(h, a);
    GiveLive(h, a);
    hide FreeListsOk, Partitioned, RunsOk, OwnersOk, LiveBlocks;
  }

  /** Freeing a free block again, which the code does not look for: with that block linked in front, no list at all
      is a free list of the page, which may then be given up or stay. */
  lemma FreedTwice(pr: PageRef, fl: seq<int>, mem: map<int, int>, a: int, fl': seq<int>)
    requires PageOk(pr, fl, mem) && a in fl
    ensures !PageOk(Pushed(pr, a), fl', mem[a := fl[0]])
  {
    if PageOk(Pushed(pr, a), fl', mem[a := fl[0]]) {
      var j :| 0 <= j < |fl| && fl[j] == a;
      FollowsOld(pr, fl, mem, a, fl', j, j);
    }
  }

  /** Block m of the old list would have to come right after block m of the new one, as far as a. */
  lemma {:induction false} FollowsOld(pr: PageRef, fl: seq<int>, mem: map<int, int>, a: int, fl': seq<int>,
                                      j: nat, m: nat)
    requires PageOk(pr, fl, mem) && j < |fl| && fl[j] == a && m <= j
    requires PageOk(Pushed(pr, a), fl', mem[a := fl[0]])
    ensures |fl'| == |fl| + 1 && fl'[0] == a && fl'[m + 1] == fl[m]
  {
    var mem' := mem[a := fl[0]];
    if m == 0 {
      assert LinkOk(mem', fl', 0);
    } else {
      FollowsOld(pr, fl, mem, a, fl', j, m - 1);
      assert LinkOk(mem', fl', m) && LinkOk(mem, fl, m - 1);
    }
  }

  lemma GiveLists(h: Heap, a: int)
    requires Inv(h) && a in h.sub
    requires a in h.mem && h.mem[a] == (if h.fls[h.sub[a]] == [] then 0 else h.fls[h.sub[a]][0])
    ensures FreeListsOk(Give(h, a))
  {
    var i := h.sub[a];
    assert a !in h.fls[i] by { assert BlockOf(a, h.prs[i]); }
    PushOk(h.prs[i], h.fls[i], a, h.mem);
  }

  lemma GiveOwners(h: Heap, a: int)
    requires Inv(h) && a in h.sub
    ensures OwnersOk(Give(h, a)) && SameHoldings(h, Give(h, a))
  {
  }

  lemma GiveLive(h: Heap, a: int)
    requires a in h.sub && h.sub[a] in h.fls && 0 <= h.sub[a] < |h.prs|
    requires !(a in h.runs && h.runs[a].owner.Big?) && SameHoldings(h, Give(h, a))
    ensures LiveBlocks(Give(h, a)) == LiveBlocks(h) - {a}
  {
    var h' := Give(h, a);
    forall b | b in h'.sub ensures LiveSize(h', b) == LiveSize(h, b) {
      assert b in h.sub;
    }
  }

  /** A subpage block does not start where a caller's run starts. */
  lemma SubNotBig(h: Heap, a: int)
    requires Inv(h) && a in h.sub
    ensures !(a in h.runs && h.runs[a].owner.Big?)
  {
    SubInRun(h, a);
  }

  lemma GivePartition(h: Heap, a: int)
    requires Inv(h) && a in h.sub
    ensures Partitioned(Give(h, a))
  {
    hide Inv, BlockOf;
    GivenFrom(h, a);
    var h' := Give(h, a);
    forall j, b | j in h'.fls && 0 <= j < |h'.prs| && BlockOf(b, h'.prs[j])
      ensures b in h'.fls[j] <==> b !in h'.sub
    {
      GiveBlock(h, a, j, b);
    }
    forall x | x in h'.sub
      ensures h'.sub[x] in h'.fls && 0 <= h'.sub[x] < |h'.prs| && BlockOf(x, h'.prs[h'.sub[x]])
    {
      GiveLeaves(h, a, x);
    }
  }

  lemma GiveLeaves(h: Heap, a: int, x: int)
    requires Inv(h) && a in h.sub && x in h.sub && x != a
    ensures h.sub[x] in h.fls && 0 <= h.sub[x] < |h.prs| && BlockOf(x, Give(h, a).prs[h.sub[x]])
  {
    assert BlockOf(x, h.prs[h.sub[x]]);
  }

  lemma GivenFrom(h: Heap, a: int)
    requires Inv(h) && a in h.sub
    ensures h.sub[a] in h.fls && 0 <= h.sub[a] < |h.prs|
  {
  }

  lemma GiveBlock(h: Heap, a: int, j: int, b: int)
    requires Inv(h) && a in h.sub && j in h.fls && 0 <= j < |h.prs| && BlockOf(b, Give(h, a).prs[j])
    ensures b in Give(h, a).fls[j] <==> b !in Give(h, a).sub
  {
    assert BlockOf(b, h.prs[j]);
    if j != h.sub[a] && b == a { OnePage(h, h.sub[a], j, a); }
  }

  lemma PushOk(pr: PageRef, fl: seq<int>, a: int, mem: map<int, int>)
    requires PageOk(pr, fl, mem) && BlockOf(a, pr) && a !in fl
    requires a in mem && mem[a] == (if fl == [] then 0 else fl[0])
    ensures PageOk(Pushed(pr, a), [a] + fl, mem)
  {
    var l := [a] + fl;
    forall i | 0 <= i < |l| ensures LinkOk(mem, l, i) {
      if i > 0 { assert LinkOk(mem, fl, i - 1); }
    }
    forall i | 0 <= i < |l| ensures BlockOf(l[i], Pushed(pr, a)) {
      if i > 0 { assert l[i] == fl[i - 1]; }
    }
  }

  // ---------------------------------------------------------------- counting blocks

  /** Distinct numbers below n: at most n of them, and if n of them then all. */
  lemma {:induction false} Pigeonhole(s: seq<int>, n: nat)
    requires Distinct(s) && forall i :: 0 <= i < |s| ==> 0 <= s[i] < n
    ensures |s| <= n
    ensures |s| == n ==> forall x :: 0 <= x < n ==> x in s
  {
    if |s| > 0 { assert 0 <= s[0] < n; }
    if n > 0 {
      if n - 1 in s {
        var k :| 0 <= k < |s| && s[k] == n - 1;
        WithoutMembers(s, k);
        var w := Without(s, k);
        forall i | 0 <= i < |w| ensures 0 <= w[i] < n - 1 { assert w[i] in w; }
        Pigeonhole(w, n - 1);
        forall x | 0 <= x < n && |s| == n ensures x in s {
          if x < n - 1 { assert x in w; }
        }
      } else {
        forall i | 0 <= i < |s| ensures 0 <= s[i] < n - 1 { assert s[i] in s; }
        Pigeonhole(s, n - 1);
      }
    }
  }

  function BlockIndex(a: int, pr: PageRef): int
    requires ValidType(pr)
  {
    (a - PageAddr(pr)) / Size(BlockType(pr))
  }

  lemma BlockIndices(a: int, b: int, pr: PageRef)
    requires BlockOf(a, pr) && BlockOf(b, pr)
    ensures 0 <= BlockIndex(a, pr) < PAGE_SIZE / Size(BlockType(pr))
    ensures BlockIndex(a, pr) == BlockIndex(b, pr) ==> a == b
  {
  }

  /** A free list never outgrows its page; when it is as long as the page has blocks, it holds them all. */
  lemma FreeCount(pr: PageRef, fl: seq<int>, mem: map<int, int>)
    requires PageOk(pr, fl, mem)
    ensures |fl| <= PAGE_SIZE / Size(BlockType(pr))
    ensures |fl| == PAGE_SIZE / Size(BlockType(pr)) ==> forall a :: BlockOf(a, pr) ==> a in fl
  {
    var n := PAGE_SIZE / Size(BlockType(pr));
    var idx := seq(|fl|, i requires 0 <= i < |fl| => BlockIndex(fl[i], pr));
    forall i, j | 0 <= i < j < |idx| ensures idx[i] != idx[j] { BlockIndices(fl[i], fl[j], pr); }
    forall i | 0 <= i < |idx| ensures 0 <= idx[i] < n { BlockIndices(fl[i], fl[i], pr); }
    Pigeonhole(idx, n);
    forall a | BlockOf(a, pr) && |fl| == n ensures a in fl {
      BlockIndices(a, a, pr);
      assert BlockIndex(a, pr) in idx;
      var k :| 0 <= k < |idx| && idx[k] == BlockIndex(a, pr);
      BlockIndices(a, fl[k], pr);
    }
  }

  // ---------------------------------------------------------------- page runs

  /** The address could be that of a new run: it overlaps nothing outstanding. */
  ghost predicate FreshRun(runs: map<int, Run>, a: int, n: nat) {
    && 0 < a && a % PAGE_SIZE == 0 && a + Extent(Run(n, InFlight)) <= ADDRESS_LIMIT
    && forall b :: b in runs ==> a + Extent(Run(n, InFlight)) <= b || b + Extent(runs[b]) <= a
  }

  /** A run comes in, either still in flight or straight to a caller. */
  lemma GetRunKeeps(h: Heap, a: int, n: nat, o: Owner)
    requires Inv(h) && FreshRun(h.runs, a, n) && !o.Page?
    ensures a !in h.runs && !Live(h, a) && Inv(h.(runs := h.runs[a := Run(n, o)]))
    ensures LiveBlocks(h.(runs := h.runs[a := Run(n, o)]))
         == if o.Big? then LiveBlocks(h)[a := n * PAGE_SIZE] else LiveBlocks(h)
  {
    NotWithin(h, a, n);
    RunAdded(h.runs, a, n, o);
    OwnerAdded(h, a, n, o);
    GetRunLive(h, a, n, o);
    hide RunsOk, OwnersOk, LiveBlocks;
  }

  lemma NotWithin(h: Heap, a: int, n: nat)
    requires Inv(h) && FreshRun(h.runs, a, n)
    ensures a !in h.runs && a !in h.sub
  {
    if a in h.sub { SubInRun(h, a); }
  }

  lemma RunAdded(runs: map<int, Run>, a: int, n: nat, o: Owner)
    requires RunsOk(runs) && FreshRun(runs, a, n)
    ensures RunsOk(runs[a := Run(n, o)])
  {
  }

  lemma OwnerAdded(h: Heap, a: int, n: nat, o: Owner)
    requires OwnersOk(h) && a !in h.runs && !o.Page?
    ensures OwnersOk(h.(runs := h.runs[a := Run(n, o)]))
  {
  }

  lemma GetRunLive(h: Heap, a: int, n: nat, o: Owner)
    requires a !in h.runs && a !in h.sub
    ensures LiveBlocks(h.(runs := h.runs[a := Run(n, o)]))
         == if o.Big? then LiveBlocks(h)[a := n * PAGE_SIZE] else LiveBlocks(h)
  {
  }

  /** A run goes back to the page allocator. */
  lemma DropRunKeeps(h: Heap, a: int)
    requires Inv(h) && a in h.runs && !h.runs[a].owner.Page?
    ensures Inv(h.(runs := h.runs - {a}))
    ensures LiveBlocks(h.(runs := h.runs - {a})) == if h.runs[a].owner.Big? then LiveBlocks(h) - {a} else LiveBlocks(h)
  {
    if a in h.sub { SubInRun(h, a); }
    assert a !in h.sub;
    DropRunLive(h, a);
  }

  lemma DropRunLive(h: Heap, a: int)
    requires a in h.runs && a !in h.sub
    ensures LiveBlocks(h.(runs := h.runs - {a})) == if h.runs[a].owner.Big? then LiveBlocks(h) - {a} else LiveBlocks(h)
  {
  }

  lemma AllFree(h: Heap, i: int)
    requires Inv(h) && i in h.fls
    requires |h.fls[i]| == PAGE_SIZE / Size(BlockType(h.prs[i]))
    ensures forall a :: a in h.sub ==> h.sub[a] != i
  {
    FreeCount(h.prs[i], h.fls[i], h.mem);
    forall a | a in h.sub ensures h.sub[a] != i {
      assert BlockOf(a, h.prs[h.sub[a]]);
    }
  }

  // ---------------------------------------------------------------- whole pages

  ghost function AddPage(h: Heap, i: int, pr: PageRef, fl: seq<int>, mem': map<int, int>): Heap
    requires 0 <= i < |h.prs|
  {
    Heap(h.prs[i := pr], [i] + h.all, h.fls[i := fl], mem', h.sub, h.runs[PageAddr(pr) := Run(1, Page(i))])
  }

  /** A run in flight becomes a page all of whose blocks are free. */
  lemma AddPageKeeps(h: Heap, i: int, pr: PageRef, fl: seq<int>, mem': map<int, int>)
    requires Inv(h) && 0 <= i < |h.prs| && i !in h.fls
    requires PageAddr(pr) in h.runs && h.runs[PageAddr(pr)] == Run(1, InFlight)
    requires PageOk(pr, fl, mem') && |fl| == PAGE_SIZE / Size(BlockType(pr))
    requires OnlyWithin(h.mem, mem', PageAddr(pr), PageAddr(pr) + PAGE_SIZE)
    ensures Inv(AddPage(h, i, pr, fl, mem')) && LiveBlocks(AddPage(h, i, pr, fl, mem')) == LiveBlocks(h)
  {
    var h', pa := AddPage(h, i, pr, fl, mem'), PageAddr(pr);
    forall j | j in h.fls ensures PageOk(h.prs[j], h.fls[j], mem') {
      assert h.runs[PageAddr(h.prs[j])] == Run(1, Page(j));
      forall k | 0 <= k < |h.fls[j]| ensures !(pa <= h.fls[j][k] < pa + PAGE_SIZE) {
        assert BlockOf(h.fls[j][k], h.prs[j]);
      }
      ChainSurvives(h.mem, mem', h.fls[j], pa, pa + PAGE_SIZE);
    }
    assert FreeListsOk(h');
    AddPagePartition(h, i, pr, fl, mem');
    assert RunsOk(h'.runs);
    assert OwnersOk(h');
    assert SameHoldings(h, h');
    SameLive(h, h');
  }

  lemma AddPagePartition(h: Heap, i: int, pr: PageRef, fl: seq<int>, mem': map<int, int>)
    requires Inv(h) && 0 <= i < |h.prs| && i !in h.fls
    requires PageAddr(pr) in h.runs && h.runs[PageAddr(pr)] == Run(1, InFlight)
    requires PageOk(pr, fl, mem') && |fl| == PAGE_SIZE / Size(BlockType(pr))
    ensures Partitioned(AddPage(h, i, pr, fl, mem'))
  {
    var h' := AddPage(h, i, pr, fl, mem');
    FreeCount(pr, fl, mem');
    forall j, b | j in h'.fls && 0 <= j < |h'.prs| && BlockOf(b, h'.prs[j])
      ensures b in h'.fls[j] <==> b !in h'.sub
    {
      if j == i {
        if b in h.sub { SubInRun(h, b); }
      } else {
        assert BlockOf(b, h.prs[j]);
      }
    }
  }

  ghost function DropPage(h: Heap, k: nat): Heap
    requires k < |h.all| && 0 <= h.all[k] < |h.prs|
  {
    var i := h.all[k];
    h.(all := Without(h.all, k), fls := h.fls - {i}, runs := h.runs[PageAddr(h.prs[i]) := Run(1, InFlight)])
  }

  /** A page all of whose blocks are free becomes a run in flight. */
  lemma DropPageKeeps(h: Heap, k: nat)
    requires Inv(h) && Distinct(h.all) && k < |h.all| && h.all[k] in h.fls
    requires |h.fls[h.all[k]]| == PAGE_SIZE / Size(BlockType(h.prs[h.all[k]]))
    ensures Inv(DropPage(h, k)) && LiveBlocks(DropPage(h, k)) == LiveBlocks(h)
  {
    var i, h' := h.all[k], DropPage(h, k);
    assert i in h.fls;
    AllFree(h, i);
    WithoutMembers(h.all, k);
    assert FreeListsOk(h');
    assert Partitioned(h');
    assert RunsOk(h'.runs);
    assert OwnersOk(h');
    assert SameHoldings(h, h');
    SameLive(h, h');
  }

  /** Records that differ at most in their list links. */
  ghost predicate SameBodies(prs: seq<PageRef>, prs': seq<PageRef>) {
    |prs| == |prs'| && forall i :: 0 <= i < |prs| ==>
      prs'[i] == prs[i].(nextSame := prs'[i].nextSame, nextAll := prs'[i].nextAll)
  }

  lemma RelinkKeeps(h: Heap, prs': seq<PageRef>)
    requires Inv(h) && SameBodies(h.prs, prs')
    ensures Inv(h.(prs := prs')) && LiveBlocks(h.(prs := prs')) == LiveBlocks(h)
  {
    hide *;
    RelinkLists(h, prs');
    RelinkPartition(h, prs');
    RelinkOwners(h, prs');
    SameLive(h.(prs := prs'), h);
  }

  lemma RelinkLists(h: Heap, prs': seq<PageRef>)
    requires Inv(h) && SameBodies(h.prs, prs')
    ensures Partitioned(h.(prs := prs')) && OwnersOk(h.(prs := prs')) ==> Inv(h.(prs := prs'))
  {
    hide Partitioned, OwnersOk;
    forall i | i in h.fls ensures 0 <= i < |prs'| && PageOk(prs'[i], h.fls[i], h.mem) {
      RelinkPage(h.prs[i], prs'[i], h.fls[i], h.mem);
    }
  }

  lemma RelinkPage(pr: PageRef, pr': PageRef, fl: seq<int>, mem: map<int, int>)
    requires PageOk(pr, fl, mem) && pr' == pr.(nextSame := pr'.nextSame, nextAll := pr'.nextAll)
    ensures PageOk(pr', fl, mem)
  {
    forall k | 0 <= k < |fl| ensures BlockOf(fl[k], pr') { assert BlockOf(fl[k], pr); }
  }

  lemma RelinkPartition(h: Heap, prs': seq<PageRef>)
    requires Inv(h) && SameBodies(h.prs, prs')
    ensures Partitioned(h.(prs := prs'))
  {
    forall i, a | 0 <= i < |prs'| ensures BlockOf(a, prs'[i]) <==> BlockOf(a, h.prs[i]) {}
  }

  lemma RelinkOwners(h: Heap, prs': seq<PageRef>)
    requires Inv(h) && SameBodies(h.prs, prs')
    ensures OwnersOk(h.(prs := prs')) && SameHoldings(h.(prs := prs'), h)
  {
  }
}
