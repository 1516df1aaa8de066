/**
 The kernel heap (kern/vm/kmalloc.c). Each method named after an atomic region
 is the code run under kmalloc_spinlock; between regions other threads may run
 theirs. Pages come from alloc_kpages, whose answer is a parameter.
 */
module Kmalloc {
  import opened Common
  import opened Words
  import opened PageRefs
  import opened HeapModel

  const LARGEST_SUBPAGE_SIZE := 2048

  /** Record i is among all and its page has blocks of type t. */
  ghost predicate Listed(prs: seq<PageRef>, all: seq<int>, i: int, t: int) {
    i in all && 0 <= i < |prs| && BlockType(prs[i]) == t
  }

  /** The allocator's indexes agree: one list of all records in use, split by
      block size into the per-size lists, and marked in the in-use words. */
  ghost predicate ListsOk(prs: seq<PageRef>, allbase: int, all: seq<int>, sizebases: seq<int>,
                          bySize: seq<seq<int>>, inuse: seq<bv32>)
  {
    && |prs| == NPAGEREFS && |sizebases| == NSIZES && |bySize| == NSIZES && |inuse| == INUSE_WORDS
    && Linked(prs, allbase, all, All)
    && (forall t :: 0 <= t < NSIZES ==> Linked(prs, sizebases[t], bySize[t], SameSize))
    && (forall t, i :: 0 <= t < NSIZES ==> (i in bySize[t] <==> Listed(prs, all, i, t)))
    && (forall i :: i in all <==> i in UsedSet(inuse))
  }

  /** Changing anything but links and block type leaves the lists alone. */
  lemma ListsSurvive(prs: seq<PageRef>, prs': seq<PageRef>, allbase: int, all: seq<int>, sizebases: seq<int>,
                     bySize: seq<seq<int>>, inuse: seq<bv32>)
    requires ListsOk(prs, allbase, all, sizebases, bySize, inuse)
    requires |prs'| == |prs| && forall i :: 0 <= i < |prs| ==>
               prs'[i] == prs[i].(nfree := prs'[i].nfree, flOffset := prs'[i].flOffset)
    ensures ListsOk(prs', allbase, all, sizebases, bySize, inuse)
  {
    forall i, t ensures Listed(prs', all, i, t) <==> Listed(prs, all, i, t) {}
    forall which, base, l | Linked(prs, base, l, which) ensures Linked(prs', base, l, which) {
      forall i | 0 <= i < |l| ensures LinkAt(prs', l, i, which) { assert LinkAt(prs, l, i, which); }
    }
  }

  /** blocktype: the smallest block that holds sz bytes. */
  method ChooseType(sz: nat) returns (t: nat)
    requires sz <= LARGEST_SUBPAGE_SIZE
    ensures t < NSIZES && sz <= Size(t) && forall s :: 0 <= s < t ==> Size(s) < sz
  {
    assert Size(NSIZES - 1) == LARGEST_SUBPAGE_SIZE;
    for i := 0 to NSIZES
      invariant forall s :: 0 <= s < i ==> Size(s) < sz
    {
      if sz <= Size(i) {
        return i;
      }
    }
    assert false;
  }

  class KernelHeap {
    const pagerefs: array<PageRef>
    const inuse: array<bv32>
    const sizebases: array<int>
    var allbase: int
    var mem: map<int, int>

    ghost var all: seq<int>
    ghost var bySize: seq<seq<int>>
    ghost var fls: map<int, seq<int>>
    ghost var sub: map<int, int>
    ghost var runs: map<int, Run>

    ghost function H(): Heap
      reads this, pagerefs
    {
      Heap(pagerefs[..], all, fls, mem, sub, runs)
    }

    ghost predicate Lists()
      reads this, pagerefs, inuse, sizebases
    {
      ListsOk(pagerefs[..], allbase, all, sizebases[..], bySize, inuse[..])
    }

    ghost predicate Valid()
      reads this, pagerefs, inuse, sizebases
    {
      && (inuse as object) != pagerefs && (inuse as object) != sizebases
      && Lists() && Inv(H())
    }

    /** The state at boot: no record in use, every list empty. */
    constructor ()
      ensures Valid() && NoIdlePage(H()) && runs == map[] && LiveBlocks(H()) == map[]
      ensures fresh(pagerefs) && fresh(inuse) && fresh(sizebases)
    {
      var prs := new PageRef[NPAGEREFS](_ => PageRef(NULL, NULL, 0, 0, 0));
      var words := new bv32[INUSE_WORDS](_ => 0);
      var bases := new int[NSIZES](_ => NULL);
      pagerefs, inuse, sizebases := prs, words, bases;
      allbase, mem := NULL, map[];
      all, bySize, fls, sub, runs := [], seq(NSIZES, _ => []), map[], map[], map[];
      NothingUsed(words[..]);
    }

    /** Code after the label doalloc: unlink the first free block of page pr. */
    method TakeBlock(pr: int) returns (ptr: int)
      requires Valid() && pr in fls && fls[pr] != []
      modifies this, pagerefs
      ensures Valid() && H() == Take(old(H()), pr) && ptr == old(fls)[pr][0]
      ensures allbase == old(allbase) && bySize == old(bySize)
    {
      hide Inv, ListsOk;
      ghost var h := H();
      HeadFacts(h, pr);
      TakeKeeps(h, pr);
      assert pagerefs[pr].flOffset < PAGE_SIZE;
      var prpage := PageAddr(pagerefs[pr]);
      ptr := prpage + pagerefs[pr].flOffset;
      var fl := mem[ptr];
      var nfree := pagerefs[pr].nfree - 1;
      if fl != 0 {
        assert nfree > 0 && fl - prpage < PAGE_SIZE;
        pagerefs[pr] := pagerefs[pr].(nfree := nfree, flOffset := fl - prpage);
      } else {
        assert nfree == 0;
        pagerefs[pr] := pagerefs[pr].(nfree := nfree, flOffset := INVALID_OFFSET);
      }
      fls := fls[pr := fls[pr][1..]];
      sub := sub[ptr := pr];
      assert pagerefs[..] == h.prs[pr := Popped(h.prs[pr], h.fls[pr])];
      assert sizebases[..] == old(sizebases[..]) && inuse[..] == old(inuse[..]);
      ListsSurvive(h.prs, pagerefs[..], allbase, all, sizebases[..], bySize, inuse[..]);
    }

    /** First region of subpage_kmalloc: a block from some page that already has the right size.
        Fails only when no such page has a free block. */
    method TakeFromList(t: nat) returns (ptr: int)
      requires Valid() && t < NSIZES
      modifies this, pagerefs
      ensures Valid() && runs == old(runs)
      ensures NoIdlePage(old(H())) ==> NoIdlePage(H())
      ensures ptr == 0 ==> H() == old(H()) && NoFreeBlock(H(), t)
      ensures ptr != 0 ==> !Live(old(H()), ptr) && LiveBlocks(H()) == LiveBlocks(old(H()))[ptr := Size(t)]
    {
      hide Inv, UsedSet;
      var pr := sizebases[t];
      ghost var h, l, k := H(), bySize[t], 0;
      assert Linked(h.prs, pr, l, SameSize);
      while pr != NULL && pagerefs[pr].nfree == 0
        invariant k <= |l| && pr == At(l, k)
        invariant forall x :: 0 <= x < k ==> l[x] in fls && fls[l[x]] == []
        decreases |l| - k
        modifies {}
      {
        assert l[k] in l && LinkAt(h.prs, l, k, SameSize);
        RecordFacts(h, pr);
        assert BlockType(pagerefs[pr]) == t;
        pr := pagerefs[pr].nextSame;
        k := k + 1;
      }
      if pr != NULL {
        assert l[k] in l;
        RecordFacts(h, pr);
        TakeKeeps(h, pr);
        BlockAddressPositive(h, pr);
        TakeBusy(h, pr);
        ptr := TakeBlock(pr);
        return;
      }
      NoneFree(h, t, l);
      return 0;
    }

    /** Second region of subpage_kmalloc, after alloc_kpages(1) returned prpage: give the page a
        record, and take a block from it. Fails, changing nothing, only when every record is in use. */
    method TakeFromFreshPage(t: nat, prpage: int) returns (ptr: int)
      requires Valid() && t < NSIZES && prpage in runs && runs[prpage] == Run(1, InFlight)
      modifies this, pagerefs, inuse, sizebases
      ensures Valid()
      ensures NoIdlePage(old(H())) ==> NoIdlePage(H())
      ensures ptr == 0 ==> H() == old(H()) && forall i: int :: 0 <= i < NPAGEREFS ==> i in all
      ensures ptr != 0 ==> !Live(old(H()), ptr) && LiveBlocks(H()) == LiveBlocks(old(H()))[ptr := Size(t)]
      ensures ptr != 0 ==> exists pr :: runs == old(runs)[prpage := Run(1, Page(pr))]
    {
      hide Inv, ListsOk, UsedSet, LiveBlocks, NoIdlePage, NoIdleExcept;
      ghost var h := H();
      var pr := AddFreshPage(t, prpage);
      if pr == NULL {
        return 0;
      }
      ghost var h1 := H();
      TakeKeeps(h1, pr);
      BlockAddressPositive(h1, pr);
      SameLiveAddress(h, h1, h1.fls[pr][0]);
      TakeBusy(h1, pr);
      ptr := TakeBlock(pr);
    }

    /** A record for the page prpage, with its free list threaded, put on the lists. */
    method AddFreshPage(t: nat, prpage: int) returns (pr: int)
      requires Valid() && t < NSIZES && prpage in runs && runs[prpage] == Run(1, InFlight)
      modifies this, pagerefs, inuse, sizebases
      ensures Valid() && LiveBlocks(H()) == LiveBlocks(old(H()))
      ensures pr == NULL ==> H() == old(H()) && forall i: int :: 0 <= i < NPAGEREFS ==> i in all
      ensures pr != NULL ==> pr in fls && fls[pr] != [] && 0 <= pr < pagerefs.Length && BlockType(pagerefs[pr]) == t
                             && runs == old(runs)[prpage := Run(1, Page(pr))]
      ensures pr != NULL && NoIdlePage(old(H())) ==> NoIdleExcept(H(), pr)
    {
      hide Inv, ListsOk, UsedSet, LiveBlocks, NoIdlePage, NoIdleExcept, PageOk, Size;
      ghost var h, sb, iu := H(), sizebases[..], inuse[..];
      ListShapes(h.prs, allbase, all, sb, bySize, iu);
      pr := AllocPageRef(inuse);
      if pr == NULL {
        assert pagerefs[..] == h.prs && sizebases[..] == sb && inuse[..] == iu;
        AllInUse(h.prs, allbase, all, sb, bySize, iu);
        return;
      }
      RunFacts(h, prpage);
      RoomForSome(t);
      var nfree := PAGE_SIZE / Size(t);
      var off: int;
      ghost var fl;
      var m;
      m, off, fl := ThreadFreeList(mem, prpage, t);
      assert off == (nfree - 1) * Size(t);
      mem := m;
      var r := PageRef(sizebases[t], allbase, MkPab(prpage, t), off, nfree);
      Unpack(r, prpage, t);
      NotInUse(h, allbase, sb, bySize, iu, pr);
      AddPageKeeps(h, pr, r, fl, m);
      ghost var ab, bs := allbase, bySize;
      pagerefs[pr] := r;
      sizebases[t] := pr;
      allbase := pr;
      all := [pr] + all;
      bySize := bySize[t := [pr] + bySize[t]];
      fls := fls[pr := fl];
      runs := runs[prpage := Run(1, Page(pr))];
      assert pagerefs[..] == h.prs[pr := r] && sizebases[..] == sb[t := pr];
      ListsAdd(h.prs, ab, h.all, sb, bs, iu, inuse[..], pr, r, t);
      assert H() == AddPage(h, pr, r, fl, m);
      OthersBusy(h, H(), pr);
    }

    /** The search of subpage_kfree: the record whose page holds ptr, or NULL if there is none. */
    method FindPage(ptr: int) returns (pr: int)
      requires Valid()
      ensures pr != NULL ==> pr in fls && 0 <= pr < pagerefs.Length
                             && PageAddr(pagerefs[pr]) <= ptr < PageAddr(pagerefs[pr]) + PAGE_SIZE
      ensures pr == NULL ==> NotOnPage(H(), ptr)
    {
      hide Inv, UsedSet;
      pr := allbase;
      ghost var h, k := H(), 0;
      while pr != NULL && !(PageAddr(pagerefs[pr]) <= ptr < PageAddr(pagerefs[pr]) + PAGE_SIZE)
        invariant k <= |all| && pr == At(all, k)
        invariant forall x :: 0 <= x < k ==> OffPage(h, all[x], ptr)
        decreases |all| - k
      {
        assert all[k] in all && LinkAt(h.prs, all, k, All);
        pr := pagerefs[pr].nextAll;
        k := k + 1;
      }
      if pr != NULL {
        assert all[k] in all;
        RecordFacts(h, pr);
      } else {
        AllOff(h, ptr);
      }
    }

    /** remove_lists and freepageref on a page that is entirely free. */
    method RemovePage(pr: int, t: int)
      requires Valid() && pr in fls && 0 <= pr < pagerefs.Length
      requires t == BlockType(pagerefs[pr]) && ValidType(pagerefs[pr])
      requires |fls[pr]| == PAGE_SIZE / Size(t)
      modifies this, pagerefs, inuse, sizebases
      ensures Valid() && sub == old(sub) && LiveBlocks(H()) == LiveBlocks(old(H()))
      ensures runs == old(runs)[old(PageAddr(pagerefs[pr])) := Run(1, InFlight)]
      ensures NoIdleExcept(old(H()), pr) ==> NoIdlePage(H())
    {
      hide Inv, ListsOk, UsedSet, LiveBlocks, NoIdlePage, NoIdleExcept, PageOk;
      ghost var h, sb, iu := H(), sizebases[..], inuse[..];
      ghost var k1, k2 := ListPositions(h, allbase, sb, bySize, iu, pr, t);
      var base := RemoveFrom(pagerefs, sizebases[t], pr, SameSize, bySize[t], k1);
      sizebases[t] := base;
      ghost var prs1 := pagerefs[..];
      SameListRemoved(h.prs, prs1, allbase, all, sb, base, bySize, iu, t, k1);
      allbase := RemoveFrom(pagerefs, allbase, pr, All, all, k2);
      assert inuse[..] == iu;
      FreePageRef(inuse, pr);
      assert sizebases[..] == sb[t := base];
      bySize := bySize[t := Without(bySize[t], k1)];
      all := Without(all, k2);
      AllListRemoved(h.prs, prs1, pagerefs[..], allbase, h.all, sizebases[..], bySize, iu, inuse[..], pr, k2, t);
      ghost var h1 := h.(prs := pagerefs[..]);
      RelinkKeeps(h, pagerefs[..]);
      DropPageKeeps(h1, k2);
      assert h1.all[k2] == pr && PageAddr(h1.prs[pr]) == PageAddr(h.prs[pr]);
      fls := fls - {pr};
      runs := runs[PageAddr(h.prs[pr]) := Run(1, InFlight)];
      assert H() == DropPage(h1, k2);
      DropBusy(h, H(), pr);
    }

    /** The region of subpage_kfree, for any pointer but a block that is free already. Nothing changes for a pointer on
        no subpage page, nor for one inside a page that is not at a block, where the code panics; otherwise exactly
        that block stops being live, and a page that became free is given up. */
    method FreeBlock(ptr: int) returns (res: FreeResult)
      requires Valid() && !OnFreeList(H(), ptr)
      modifies this, pagerefs, inuse, sizebases
      ensures Valid() && (res.NotOurs? <==> NotOnPage(old(H()), ptr)) && (res.Freed? <==> ptr in old(sub))
      ensures !res.Freed? ==> H() == old(H())
      ensures res.Freed? ==> LiveBlocks(H()) == LiveBlocks(old(H())) - {ptr}
      ensures NoIdlePage(old(H())) ==> NoIdlePage(H())
      ensures res.Freed? && res.page == 0 ==> runs == old(runs)
      ensures res.Freed? && res.page != 0 ==> res.page in old(runs) && old(runs)[res.page].owner.Page?
                                              && runs == old(runs)[res.page := Run(1, InFlight)]
    {
      hide Inv, ListsOk, UsedSet, LiveBlocks, NoIdlePage, NoIdleExcept, PageOk;
      ghost var h, sb, iu := H(), sizebases[..], inuse[..];
      var pr := FindPage(ptr);
      if pr == NULL {
        LiveOffPage(h, ptr);
        return NotOurs;
      }
      BlockOrNot(h, pr, ptr);
      var prpage, t := PageAddr(pagerefs[pr]), BlockType(pagerefs[pr]);
      var offset := ptr - prpage;
      if offset % Size(t) != 0 {
        return Panic;
      }
      LiveOnPage(h, pr, ptr);
      var m := FillDeadbeef(mem, ptr, Size(t));
      m := m[ptr := if pagerefs[pr].flOffset == INVALID_OFFSET then 0 else prpage + pagerefs[pr].flOffset];
      LiveWriteKeeps(h, ptr, m);
      mem := m;
      ghost var h1 := H();
      GiveKeeps(h1, ptr);
      pagerefs[pr] := pagerefs[pr].(flOffset := offset, nfree := pagerefs[pr].nfree + 1);
      fls := fls[pr := [ptr] + fls[pr]];
      sub := sub - {ptr};
      assert pagerefs[..] == h.prs[pr := Pushed(h.prs[pr], ptr)];
      assert sizebases[..] == sb && inuse[..] == iu;
      assert H() == Give(h1, ptr);
      ListsSurvive(h.prs, pagerefs[..], allbase, all, sb, bySize, iu);
      OthersBusy(h, H(), pr);
      CountFacts(H(), pr);
      assert pagerefs[pr].nfree <= PAGE_SIZE / Size(t);
      if pagerefs[pr].nfree == PAGE_SIZE / Size(t) {
        RunFacts(H(), prpage);
        RemovePage(pr, t);
        return Freed(prpage);
      }
      NoneIdle(H(), pr);
      return Freed(0);
    }

    /** subpage_kmalloc, run alone. answer is what alloc_kpages(1) would say. */
    method SubpageMalloc(sz: nat, answer: int) returns (ptr: int)
      requires Valid() && NoIdlePage(H()) && sz < LARGEST_SUBPAGE_SIZE
      requires answer == 0 || FreshRun(runs, answer, 1)
      modifies this, pagerefs, inuse, sizebases
      ensures Valid() && NoIdlePage(H()) && SameInFlight(old(runs), runs)
      ensures ptr == 0 ==> H() == old(H()) && (answer == 0 || forall i: int :: 0 <= i < NPAGEREFS ==> i in all)
      ensures ptr != 0 ==> Obtained(old(H()), H(), ptr, Granted(sz))
    {
      hide Inv, ListsOk, UsedSet, LiveBlocks;
      ghost var h := H();
      var t := ChooseType(sz);
      GrantedSize(sz, t);
      ptr := TakeFromList(t);
      if ptr != 0 {
        GrantedApart(h, H(), ptr, Size(t));
        return;
      }
      if answer == 0 {
        return 0;
      }
      GetRunKeeps(h, answer, 1, InFlight);
      runs := runs[answer := Run(1, InFlight)];
      ghost var h1 := H();
      assert h1 == h.(runs := h.runs[answer := Run(1, InFlight)]);
      ptr := TakeFromFreshPage(t, answer);
      if ptr == 0 {
        DropRunKeeps(h1, answer);
        runs := runs - {answer};
        assert runs == h.runs;
        assert H() == h;
      } else {
        SameLiveAddress(h, h1, ptr);
        GrantedApart(h, H(), ptr, Size(t));
      }
    }

    /** kmalloc, run alone. answer is what alloc_kpages would say: 0, or a run that overlaps nothing.
        A null result means that no memory was to be had; any other result is a new block of the
        size Granted(sz) that overlaps no live block. */
    method Malloc(sz: nat, answer: int) returns (ptr: int)
      requires Valid() && NoIdlePage(H()) && sz < ADDRESS_LIMIT
      requires answer == 0 || FreshRun(runs, answer, PagesWanted(sz))
      modifies this, pagerefs, inuse, sizebases
      ensures Valid() && NoIdlePage(H()) && SameInFlight(old(runs), runs)
      ensures ptr == 0 ==> H() == old(H()) && (answer == 0 || forall i: int :: 0 <= i < NPAGEREFS ==> i in all)
      ensures ptr != 0 ==> Obtained(old(H()), H(), ptr, Granted(sz))
    {
      hide Inv, ListsOk, UsedSet, LiveBlocks;
      if sz >= LARGEST_SUBPAGE_SIZE {
        var npages := PagesWanted(sz);
        if answer == 0 {
          return 0;
        }
        ghost var h := H();
        GetRunKeeps(h, answer, npages, Big);
        runs := runs[answer := Run(npages, Big)];
        assert H() == h.(runs := runs);
        GrantedApart(h, H(), answer, Granted(sz));
        return answer;
      }
      ptr := SubpageMalloc(sz, answer);
    }

    /** kfree of a pointer that is not a free block. A null pointer is ignored; a live one stops being live, exactly it,
        and a page none of whose blocks is live goes back to the page allocator; anything else panics, except that the
        page allocator is trusted with whole pages that are none of its runs. */
    method Free(ptr: int) returns (panicked: bool)
      requires Valid() && NoIdlePage(H()) && !OnFreeList(H(), ptr)
      requires ptr != 0 && NotOnPage(H(), ptr) && ptr % PAGE_SIZE == 0 ==> Live(H(), ptr)
      modifies this, pagerefs, inuse, sizebases
      ensures Valid() && NoIdlePage(H()) && SameInFlight(old(runs), runs)
      ensures panicked <==> ptr != 0 && !Live(old(H()), ptr)
      ensures panicked ==> H() == old(H())
      ensures !panicked ==> LiveBlocks(H()) == LiveBlocks(old(H())) - {ptr}
    {
      hide Inv, ListsOk, UsedSet, LiveBlocks, NotOnPage, OnFreeList;
      ghost var h := H();
      if ptr == 0 {
        NullNotLive(h);
        return false;
      }
      OffPageLive(h, ptr);
      var res := FreeBlock(ptr);
      ghost var h1 := H();
      match res {
        case Panic =>
          return true;
        case NotOurs =>
          if ptr % PAGE_SIZE != 0 {
            return true;
          }
          RunFacts(h, ptr);
          DropRunKeeps(h1, ptr);
          runs := runs - {ptr};
        case Freed(page) =>
          if page != 0 {
            DropRunKeeps(h1, page);
            runs := runs - {page};
          }
      }
      return false;
    }

    /** The holder of a live block writes a word inside it. */
    method Write(a: int, w: int, value: int)
      requires Valid() && Live(H(), a) && a <= w < a + LiveSize(H(), a)
      modifies this
      ensures Valid() && LiveBlocks(H()) == LiveBlocks(old(H())) && mem == old(mem)[w := value]
    {
      hide Inv, ListsOk, UsedSet;
      ghost var h := H();
      LiveWriteKeeps(h, a, mem[w := value]);
      mem := mem[w := value];
      assert H() == h.(mem := mem);
    }
  }

  /** What the record and memory say about the head of a nonempty free list. */
  lemma HeadFacts(h: Heap, pr: int)
    requires Inv(h) && pr in h.fls && h.fls[pr] != []
    ensures 0 <= pr < |h.prs|
    ensures var fl, r := h.fls[pr], h.prs[pr];
            && 0 <= r.flOffset < PAGE_SIZE && PageAddr(r) + r.flOffset == fl[0] && fl[0] in h.mem && r.nfree == |fl|
            && (if |fl| > 1 then h.mem[fl[0]] == fl[1] != 0 && fl[1] - PageAddr(r) < PAGE_SIZE else h.mem[fl[0]] == 0)
  {
    var fl, r := h.fls[pr], h.prs[pr];
    assert PageOk(r, fl, h.mem);
    assert BlockOf(fl[0], r) && LinkOk(h.mem, fl, 0);
    if |fl| > 1 { assert BlockOf(fl[1], r); }
  }

  /** Every page of block type t is fully handed out. */
  ghost predicate NoFreeBlock(h: Heap, t: int) {
    forall i :: i in h.fls && 0 <= i < |h.prs| && BlockType(h.prs[i]) == t ==> h.fls[i] == []
  }

  lemma NoneFree(h: Heap, t: int, l: seq<int>)
    requires Inv(h)
    requires forall i :: i in l <==> Listed(h.prs, h.all, i, t)
    requires forall x :: 0 <= x < |l| ==> l[x] in h.fls && h.fls[l[x]] == []
    ensures NoFreeBlock(h, t)
  {
    forall i | i in h.fls && 0 <= i < |h.prs| && BlockType(h.prs[i]) == t ensures h.fls[i] == [] {
      assert Listed(h.prs, h.all, i, t);
    }
  }

  lemma BlockAddressPositive(h: Heap, i: int)
    requires Inv(h) && i in h.fls && h.fls[i] != []
    ensures h.fls[i][0] > 0
  {
    assert PageOk(h.prs[i], h.fls[i], h.mem) && BlockOf(h.fls[i][0], h.prs[i]);
  }

  lemma RecordFacts(h: Heap, i: int)
    requires Inv(h) && i in h.all
    ensures i in h.fls && 0 <= i < |h.prs| && h.prs[i].nfree == |h.fls[i]| && ValidType(h.prs[i])
  {
  }

  // ---------------------------------------------------------------- the record lists

  lemma ListShapes(prs: seq<PageRef>, allbase: int, all: seq<int>, sizebases: seq<int>, bySize: seq<seq<int>>,
                   inuse: seq<bv32>)
    requires ListsOk(prs, allbase, all, sizebases, bySize, inuse)
    ensures |prs| == NPAGEREFS && |sizebases| == NSIZES && |bySize| == NSIZES && |inuse| == INUSE_WORDS
  {
  }

  lemma AllInUse(prs: seq<PageRef>, allbase: int, all: seq<int>, sizebases: seq<int>, bySize: seq<seq<int>>,
                 inuse: seq<bv32>)
    requires ListsOk(prs, allbase, all, sizebases, bySize, inuse)
    requires forall i: int :: 0 <= i < NPAGEREFS ==> i in UsedSet(inuse)
    ensures forall i: int :: 0 <= i < NPAGEREFS ==> i in all
  {
  }

  lemma NotInUse(h: Heap, allbase: int, sizebases: seq<int>, bySize: seq<seq<int>>, inuse: seq<bv32>, i: int)
    requires Inv(h) && ListsOk(h.prs, allbase, h.all, sizebases, bySize, inuse) && i !in UsedSet(inuse)
    ensures i !in h.all && i !in h.fls
  {
    hide UsedSet;
  }

  lemma RunFacts(h: Heap, a: int)
    requires Inv(h) && a in h.runs
    ensures 0 < a && a % PAGE_SIZE == 0
  {
  }

  lemma SameLiveAddress(h: Heap, h': Heap, a: int)
    requires LiveBlocks(h) == LiveBlocks(h')
    ensures Live(h, a) <==> Live(h', a)
  {
    assert Live(h, a) <==> a in LiveBlocks(h);
    assert Live(h', a) <==> a in LiveBlocks(h');
  }

  /** A record not in use is put at the head of the list of all and of its size's list. */
  lemma ListsAdd(prs: seq<PageRef>, allbase: int, all: seq<int>, sizebases: seq<int>, bySize: seq<seq<int>>,
                 inuse: seq<bv32>, inuse': seq<bv32>, i: int, r: PageRef, t: nat)
    requires ListsOk(prs, allbase, all, sizebases, bySize, inuse)
    requires 0 <= i < NPAGEREFS && i !in all && t < NSIZES && BlockType(r) == t
    requires r.nextAll == allbase && r.nextSame == sizebases[t]
    requires |inuse'| == INUSE_WORDS && UsedSet(inuse') == UsedSet(inuse) + {i}
    ensures ListsOk(prs[i := r], i, [i] + all, sizebases[t := i], bySize[t := [i] + bySize[t]], inuse')
  {
    hide UsedSet;
    var prs', sb, bs := prs[i := r], sizebases[t := i], bySize[t := [i] + bySize[t]];
    LinkHead(prs, allbase, all, All, i, r);
    forall s | 0 <= s < NSIZES ensures Linked(prs', sb[s], bs[s], SameSize)
    {
      assert i in bySize[s] <==> Listed(prs, all, i, s);
      if s == t { LinkHead(prs, sizebases[t], bySize[t], SameSize, i, r); }
      else { LinkOther(prs, sizebases[s], bySize[s], SameSize, i, r); }
    }
    var all' := [i] + all;
    forall s, j | 0 <= s < NSIZES ensures j in bs[s] <==> Listed(prs', all', j, s) {
      assert j in bySize[s] <==> Listed(prs, all, j, s);
    }
  }

  lemma LinkHead(prs: seq<PageRef>, base: int, l: seq<int>, which: List, i: int, r: PageRef)
    requires Linked(prs, base, l, which) && 0 <= i < |prs| && i !in l && Next(r, which) == base
    ensures Linked(prs[i := r], i, [i] + l, which)
  {
    var l', prs' := [i] + l, prs[i := r];
    forall k | 0 <= k < |l'| ensures 0 <= l'[k] < |prs'| && LinkAt(prs', l', k, which) {
      if k > 0 { assert LinkAt(prs, l, k - 1, which); }
    }
  }

  lemma LinkOther(prs: seq<PageRef>, base: int, l: seq<int>, which: List, i: int, r: PageRef)
    requires Linked(prs, base, l, which) && 0 <= i < |prs| && (i !in l || Next(r, which) == Next(prs[i], which))
    ensures Linked(prs[i := r], base, l, which)
  {
    var prs' := prs[i := r];
    forall k | 0 <= k < |l| ensures LinkAt(prs', l, k, which) { assert LinkAt(prs, l, k, which); }
  }

  // ---------------------------------------------------------------- threading a fresh page

  lemma BlockAddress(i: nat, pr: PageRef)
    requires ValidType(pr) && i < PAGE_SIZE / Size(BlockType(pr))
    ensures BlockOf(PageAddr(pr) + i * Size(BlockType(pr)), pr)
  {
    SizeDivides(BlockType(pr));
    Multiples(i, Size(BlockType(pr)), PAGE_SIZE / Size(BlockType(pr)));
  }

  lemma RoomForSome(t: nat)
    requires t < NSIZES
    ensures 0 < Size(t) && PAGE_SIZE / Size(t) >= 2
  {
    SizeDivides(t);
  }

  lemma SizeDivides(t: nat)
    requires t < NSIZES
    ensures 0 < Size(t) && PAGE_SIZE / Size(t) * Size(t) == PAGE_SIZE
  {
    if t == 0 {} else if t == 1 {} else if t == 2 {} else if t == 3 {}
    else if t == 4 {} else if t == 5 {} else if t == 6 {} else {}
  }

  lemma Multiples(i: nat, sz: nat, n: nat)
    requires i < n && 0 < sz
    ensures 0 <= i * sz < n * sz && (i * sz) % sz == 0
  {
    ModUnique(0, i, sz);
    assert (n - i) * sz > 0;
  }

  /** The loop that links each block of a fresh page to the block before it. */
  method ThreadFreeList(mem: map<int, int>, prpage: int, t: nat)
    returns (m: map<int, int>, off: int, ghost fl: seq<int>)
    requires t < NSIZES && prpage > 0 && prpage % PAGE_SIZE == 0
    ensures OnlyWithin(mem, m, prpage, prpage + PAGE_SIZE)
    ensures |fl| == PAGE_SIZE / Size(t) && off == (|fl| - 1) * Size(t)
    ensures forall same, all :: PageOk(PageRef(same, all, MkPab(prpage, t), off, |fl|), fl, m)
  {
    var sz := Size(t);
    var nfree := PAGE_SIZE / sz;
    ghost var r := PageRef(NULL, NULL, MkPab(prpage, t), INVALID_OFFSET, 0);
    Unpack(r, prpage, t);
    BlockAddress(0, r);
    m := mem[prpage := 0];
    PushOk(r, [], prpage, m);
    fl := [prpage] + [];
    var last := prpage;
    r := Pushed(r, prpage);
    var i := 1;
    while i < nfree
      invariant 1 <= i <= nfree && last == prpage + (i - 1) * sz && |fl| == i && fl[0] == last
      invariant forall k :: 0 <= k < |fl| ==> fl[k] <= last
      invariant r.pab == MkPab(prpage, t) && PageOk(r, fl, m)
      invariant OnlyWithin(mem, m, prpage, prpage + PAGE_SIZE)
    {
      var a := prpage + i * sz;
      assert a == last + sz;
      Unpack(r, prpage, t);
      BlockAddress(i, r);
      ghost var m0 := m;
      m := m[a := last];
      ChainSurvives(m0, m, fl, a, a + 1);
      PushOk(r, fl, a, m);
      fl := [a] + fl;
      r := Pushed(r, a);
      last := a;
      i := i + 1;
    }
    off := last - prpage;
    forall same, all ensures PageOk(PageRef(same, all, MkPab(prpage, t), off, |fl|), fl, m) {
      Unpack(r, prpage, t);
      SamePage(r, PageRef(same, all, MkPab(prpage, t), off, |fl|), fl, m);
    }
  }

  lemma SamePage(r: PageRef, r': PageRef, fl: seq<int>, m: map<int, int>)
    requires PageOk(r, fl, m) && r' == r.(nextSame := r'.nextSame, nextAll := r'.nextAll)
    ensures PageOk(r', fl, m)
  {
    forall a ensures BlockOf(a, r') <==> BlockOf(a, r) {}
  }

  // ---------------------------------------------------------------- freeing

  ghost predicate OffPage(h: Heap, i: int, ptr: int) {
    0 <= i < |h.prs| && !(PageAddr(h.prs[i]) <= ptr < PageAddr(h.prs[i]) + PAGE_SIZE)
  }

  ghost predicate NotOnPage(h: Heap, ptr: int) {
    forall i :: i in h.fls ==> OffPage(h, i, ptr)
  }

  lemma AllOff(h: Heap, ptr: int)
    requires Inv(h) && forall x :: 0 <= x < |h.all| ==> OffPage(h, h.all[x], ptr)
    ensures NotOnPage(h, ptr)
  {
  }

  /** What subpage_kfree says: a block was freed (and page, if not 0, is to be given back), the pointer is on no
      subpage page, or it is inside one but not at a block. */
  datatype FreeResult = Freed(page: int) | NotOurs | Panic

  /** The block is free already. */
  ghost predicate OnFreeList(h: Heap, ptr: int) { exists i :: i in h.fls && ptr in h.fls[i] }

  /** An address on a page is live exactly when it is at a block that is not free. */
  lemma BlockOrNot(h: Heap, pr: int, ptr: int)
    requires Inv(h) && pr in h.fls && 0 <= pr < |h.prs| && !OnFreeList(h, ptr)
    requires PageAddr(h.prs[pr]) <= ptr < PageAddr(h.prs[pr]) + PAGE_SIZE
    ensures ptr in h.sub <==> BlockOf(ptr, h.prs[pr])
    ensures !NotOnPage(h, ptr) && ValidType(h.prs[pr])
  {
    if ptr in h.sub { OnSamePage(h, pr, ptr); }
    assert ptr !in h.fls[pr];
  }

  lemma OnSamePage(h: Heap, pr: int, ptr: int)
    requires Inv(h) && pr in h.fls && 0 <= pr < |h.prs| && ptr in h.sub
    requires PageAddr(h.prs[pr]) <= ptr < PageAddr(h.prs[pr]) + PAGE_SIZE
    ensures h.sub[ptr] == pr
  {
    SubInRun(h, ptr);
  }

  /** Off all subpage pages, a live address begins a run of pages; on one, it is a block. */
  lemma OffPageLive(h: Heap, ptr: int)
    requires Inv(h)
    ensures NotOnPage(h, ptr) ==> ptr !in h.sub && (Live(h, ptr) ==> ptr % PAGE_SIZE == 0)
    ensures !NotOnPage(h, ptr) ==> (Live(h, ptr) <==> ptr in h.sub)
  {
  }

  lemma LiveOffPage(h: Heap, ptr: int)
    requires Inv(h) && NotOnPage(h, ptr)
    ensures ptr !in h.sub
  {
  }

  /** A live pointer that lies on a page is one of its blocks, and its free list's head is as recorded. */
  lemma LiveOnPage(h: Heap, pr: int, ptr: int)
    requires Inv(h) && Live(h, ptr) && pr in h.fls && 0 <= pr < |h.prs|
    requires PageAddr(h.prs[pr]) <= ptr < PageAddr(h.prs[pr]) + PAGE_SIZE
    ensures ptr in h.sub && h.sub[ptr] == pr && BlockOf(ptr, h.prs[pr])
    ensures PageAddr(h.prs[pr]) in h.runs && h.runs[PageAddr(h.prs[pr])] == Run(1, Page(pr))
    ensures LiveSize(h, ptr) == Size(BlockType(h.prs[pr]))
    ensures if h.fls[pr] == [] then h.prs[pr].flOffset == INVALID_OFFSET
            else 0 <= h.prs[pr].flOffset < PAGE_SIZE && PageAddr(h.prs[pr]) + h.prs[pr].flOffset == h.fls[pr][0]
  {
    if ptr in h.sub {
      SubInRun(h, ptr);
    }
    if h.fls[pr] != [] { HeadFacts(h, pr); }
  }

  lemma CountFacts(h: Heap, pr: int)
    requires Inv(h) && pr in h.fls
    ensures 0 <= pr < |h.prs| && ValidType(h.prs[pr])
    ensures h.prs[pr].nfree == |h.fls[pr]| <= PAGE_SIZE / Size(BlockType(h.prs[pr]))
    ensures PageAddr(h.prs[pr]) in h.runs
  {
    FreeCount(h.prs[pr], h.fls[pr], h.mem);
  }

  /** fill_deadbeef. */
  method FillDeadbeef(mem: map<int, int>, ptr: int, len: int) returns (m: map<int, int>)
    requires len >= 0
    ensures OnlyWithin(mem, m, ptr, ptr + len)
    ensures forall i :: 0 <= i < len / 4 ==> ptr + 4 * i in m && m[ptr + 4 * i] == 0xdeadbeef
  {
    m := mem;
    for i := 0 to len / 4
      invariant OnlyWithin(mem, m, ptr, ptr + len)
      invariant forall j :: 0 <= j < i ==> ptr + 4 * j in m && m[ptr + 4 * j] == 0xdeadbeef
    {
      m := m[ptr + 4 * i := 0xdeadbeef];
    }
  }

  lemma ListPositions(h: Heap, allbase: int, sizebases: seq<int>, bySize: seq<seq<int>>, inuse: seq<bv32>,
                      pr: int, t: int)
    returns (k1: nat, k2: nat)
    requires Inv(h) && ListsOk(h.prs, allbase, h.all, sizebases, bySize, inuse)
    requires pr in h.fls && 0 <= pr < |h.prs| && BlockType(h.prs[pr]) == t && 0 <= t < NSIZES
    ensures |sizebases| == NSIZES && |bySize| == NSIZES && |inuse| == INUSE_WORDS && |h.prs| == NPAGEREFS
    ensures k1 < |bySize[t]| && bySize[t][k1] == pr && k2 < |h.all| && h.all[k2] == pr
    ensures Linked(h.prs, sizebases[t], bySize[t], SameSize) && Linked(h.prs, allbase, h.all, All)
    ensures pr in UsedSet(inuse) && Distinct(h.all) && forall i :: i in h.all <==> i in UsedSet(inuse)
  {
    hide UsedSet;
    assert pr in h.all && Listed(h.prs, h.all, pr, t);
    assert pr in bySize[t];
    k1 :| 0 <= k1 < |bySize[t]| && bySize[t][k1] == pr;
    k2 :| 0 <= k2 < |h.all| && h.all[k2] == pr;
  }

  lemma OtherList(prs: seq<PageRef>, prs': seq<PageRef>, which: List, c: int, base: int, l: seq<int>, which': List)
    requires OneLink(prs, prs', which, c) && Linked(prs, base, l, which') && (which != which' || c !in l)
    ensures Linked(prs', base, l, which')
  {
    forall k | 0 <= k < |l| ensures LinkAt(prs', l, k, which') { assert LinkAt(prs, l, k, which'); }
  }

  /** The per-size lists hold the records of all except skip, by block type. */
  ghost predicate SplitBySize(prs: seq<PageRef>, all: seq<int>, bySize: seq<seq<int>>, skip: int) {
    forall s, i :: 0 <= s < |bySize| ==>
      (i in bySize[s] <==> Listed(prs, all, i, s) && i != skip)
  }

  lemma ListedOnce(prs: seq<PageRef>, allbase: int, all: seq<int>, sizebases: seq<int>, bySize: seq<seq<int>>,
                   inuse: seq<bv32>, s: int, t: int, i: int)
    requires ListsOk(prs, allbase, all, sizebases, bySize, inuse) && 0 <= s < NSIZES && 0 <= t < NSIZES && s != t
    requires i == NULL || i in bySize[t]
    ensures i !in bySize[s]
  {
    hide UsedSet;
    assert i in bySize[t] <==> Listed(prs, all, i, t);
    assert i in bySize[s] <==> Listed(prs, all, i, s);
  }

  /** After the first loop of remove_lists every list but the shortened one is as before. */
  lemma SameListRemoved(prs: seq<PageRef>, prs1: seq<PageRef>, allbase: int, all: seq<int>,
                        sizebases: seq<int>, base: int,
                        bySize: seq<seq<int>>, inuse: seq<bv32>, t: int, k: nat)
    requires ListsOk(prs, allbase, all, sizebases, bySize, inuse) && 0 <= t < NSIZES && k < |bySize[t]|
    requires OneLink(prs, prs1, SameSize, if k > 0 then bySize[t][k - 1] else NULL)
    requires Linked(prs1, base, Without(bySize[t], k), SameSize)
    ensures Linked(prs1, allbase, all, All)
    ensures var sb, bs := sizebases[t := base], bySize[t := Without(bySize[t], k)];
            && (forall s :: 0 <= s < NSIZES ==> Linked(prs1, sb[s], bs[s], SameSize))
            && SplitBySize(prs, all, bs, bySize[t][k])
  {
    hide UsedSet;
    WithoutMembers(bySize[t], k);
    var c, sb, bs := if k > 0 then bySize[t][k - 1] else NULL, sizebases[t := base], bySize[t := Without(bySize[t], k)];
    OtherList(prs, prs1, SameSize, c, allbase, all, All);
    forall s | 0 <= s < NSIZES ensures Linked(prs1, sb[s], bs[s], SameSize) {
      if s != t {
        ListedOnce(prs, allbase, all, sizebases, bySize, inuse, s, t, c);
        OtherList(prs, prs1, SameSize, c, sizebases[s], bySize[s], SameSize);
      }
    }
    var pr := bySize[t][k];
    assert pr in bySize[t];
    assert Listed(prs, all, pr, t);
    forall s, i | 0 <= s < |bs| ensures i in bs[s] <==> Listed(prs, all, i, s) && i != pr {
      assert i in bySize[s] <==> Listed(prs, all, i, s);
    }
  }

  /** After the second loop and freepageref all indexes agree again, without pr. */
  lemma AllListRemoved(prs: seq<PageRef>, prs1: seq<PageRef>, prs2: seq<PageRef>, allbase: int, all: seq<int>,
                       sizebases: seq<int>, bySize: seq<seq<int>>, inuse: seq<bv32>, inuse': seq<bv32>,
                       pr: int, k: nat, t: int)
    requires |prs| == NPAGEREFS && |sizebases| == NSIZES && |bySize| == NSIZES && |inuse'| == INUSE_WORDS
    requires k < |all| && all[k] == pr && Distinct(all)
    requires exists c :: OneLink(prs, prs1, SameSize, c)
    requires OneLink(prs1, prs2, All, if k > 0 then all[k - 1] else NULL)
    requires Linked(prs2, allbase, Without(all, k), All)
    requires forall s :: 0 <= s < NSIZES ==> Linked(prs1, sizebases[s], bySize[s], SameSize)
    requires SplitBySize(prs, all, bySize, pr)
    requires forall i :: i in all <==> i in UsedSet(inuse)
    requires UsedSet(inuse') == UsedSet(inuse) - {pr}
    ensures ListsOk(prs2, allbase, Without(all, k), sizebases, bySize, inuse')
    ensures SameBodies(prs, prs2)
  {
    hide UsedSet;
    WithoutMembers(all, k);
    forall i | 0 <= i < NPAGEREFS
      ensures prs2[i].pab == prs[i].pab && prs2[i].nfree == prs[i].nfree && prs2[i].flOffset == prs[i].flOffset
    {
    }
    var all' := Without(all, k);
    forall s, i | 0 <= s < NSIZES ensures i in bySize[s] <==> Listed(prs2, all', i, s) {
      assert i in bySize[s] <==> Listed(prs, all, i, s) && i != pr;
      if 0 <= i < NPAGEREFS { assert BlockType(prs2[i]) == BlockType(prs[i]); }
    }
    forall s | 0 <= s < NSIZES ensures Linked(prs2, sizebases[s], bySize[s], SameSize) {
      OtherList(prs1, prs2, All, if k > 0 then all[k - 1] else NULL, sizebases[s], bySize[s], SameSize);
    }
  }

  // ---------------------------------------------------------------- requests

  /** Pages asked of alloc_kpages; the rounding up is done in 32 bits. */
  function PagesWanted(sz: nat): nat {
    if sz >= LARGEST_SUBPAGE_SIZE then (sz + PAGE_SIZE - 1) % ADDRESS_LIMIT / PAGE_SIZE else 1
  }

  /** Bytes a request of sz bytes is given. */
  function Granted(sz: nat): int {
    if sz >= LARGEST_SUBPAGE_SIZE then PagesWanted(sz) * PAGE_SIZE
    else if sz <= 16 then 16
    else 2 * Granted((sz + 1) / 2)
  }

  lemma GrantedSize(sz: nat, t: nat)
    requires sz < LARGEST_SUBPAGE_SIZE && t < NSIZES && sz <= Size(t) && forall s :: 0 <= s < t ==> Size(s) < sz
    ensures Granted(sz) == Size(t)
  {
    if t > 0 {
      assert Size(t - 1) < sz && Size(t) == 2 * Size(t - 1);
      GrantedSize((sz + 1) / 2, t - 1);
    }
  }

  /** A request gets at least what it asked for exactly when rounding it up to whole pages does not wrap around. */
  lemma GrantCovers(sz: nat)
    requires sz < ADDRESS_LIMIT
    ensures Granted(sz) >= sz <==> sz <= ADDRESS_LIMIT - PAGE_SIZE
  {
    if sz < LARGEST_SUBPAGE_SIZE {
      SmallCovers(sz);
    } else if sz > ADDRESS_LIMIT - PAGE_SIZE {
      assert (sz + PAGE_SIZE - 1) % ADDRESS_LIMIT == sz + PAGE_SIZE - 1 - ADDRESS_LIMIT;
    }
  }

  lemma {:induction false} SmallCovers(sz: nat)
    requires sz < LARGEST_SUBPAGE_SIZE
    ensures Granted(sz) >= sz
  {
    if sz > 16 { SmallCovers((sz + 1) / 2); }
  }

  /** The largest request wraps around to no pages at all. */
  lemma WrappedRequest()
    ensures Granted(ADDRESS_LIMIT - 1) == 0
  {
  }

  ghost predicate SameInFlight(runs: map<int, Run>, runs': map<int, Run>) {
    forall a :: (a in runs && runs[a].owner.InFlight?) <==> (a in runs' && runs'[a].owner.InFlight?)
  }

  /** Every page has a block in use. */
  ghost predicate NoIdlePage(h: Heap) {
    forall i :: i in h.fls && 0 <= i < |h.prs| && ValidType(h.prs[i]) ==>
      |h.fls[i]| < PAGE_SIZE / Size(BlockType(h.prs[i]))
  }

  ghost predicate NoIdleExcept(h: Heap, skip: int) {
    forall i :: i in h.fls && i != skip && 0 <= i < |h.prs| && ValidType(h.prs[i]) ==>
      |h.fls[i]| < PAGE_SIZE / Size(BlockType(h.prs[i]))
  }

  lemma NoneIdle(h: Heap, pr: int)
    requires pr in h.fls && 0 <= pr < |h.prs| && ValidType(h.prs[pr])
    requires |h.fls[pr]| < PAGE_SIZE / Size(BlockType(h.prs[pr]))
    ensures NoIdleExcept(h, pr) ==> NoIdlePage(h)
  {
  }

  lemma TakeBusy(h: Heap, pr: int)
    requires Inv(h) && pr in h.fls && h.fls[pr] != []
    ensures NoIdleExcept(h, pr) ==> NoIdlePage(Take(h, pr))
  {
    assert ValidType(h.prs[pr]);
    FreeCount(h.prs[pr], h.fls[pr], h.mem);
    forall i | 0 <= i < |h.prs| ensures BlockType(Take(h, pr).prs[i]) == BlockType(h.prs[i]) {}
  }

  lemma OthersBusy(h: Heap, h': Heap, pr: int)
    requires |h'.prs| == |h.prs| && forall i :: i in h'.fls && i != pr ==> i in h.fls && h'.fls[i] == h.fls[i]
    requires forall i :: 0 <= i < |h.prs| && i != pr ==> h'.prs[i] == h.prs[i]
    ensures NoIdlePage(h) ==> NoIdleExcept(h', pr)
  {
  }

  lemma DropBusy(h: Heap, h': Heap, pr: int)
    requires SameBodies(h.prs, h'.prs) && h'.fls == h.fls - {pr}
    ensures NoIdleExcept(h, pr) ==> NoIdlePage(h')
  {
    forall i | 0 <= i < |h.prs| ensures BlockType(h'.prs[i]) == BlockType(h.prs[i]) {}
  }

  /** No page is held for nothing: every run that is not in flight contains a live block. */
  lemma HeldForSomeBlock(h: Heap, a: int) returns (b: int)
    requires Inv(h) && NoIdlePage(h) && a in h.runs && !h.runs[a].owner.InFlight?
    ensures Live(h, b) && a <= b && b + LiveSize(h, b) <= a + Extent(h.runs[a])
  {
    if h.runs[a].owner.Big? {
      b := a;
      if b in h.sub { SubInRun(h, b); }
    } else {
      var i := h.runs[a].owner.ref;
      b := SomeBlockUsed(h.prs[i], h.fls[i], h.mem);
      assert b in h.sub;
      SubInRun(h, b);
    }
  }

  /** Freeing a free block again. Either the page is then counted as all free and given up, although block b on it is
      live, and no heap without the page has the same live blocks; or it stays, and no list is its free list. */
  lemma FreedAgain(h: Heap, i: int, a: int) returns (b: int)
    requires Inv(h) && NoIdlePage(h) && i in h.fls && a in h.fls[i]
    ensures 0 <= i < |h.prs| && ValidType(h.prs[i])
    ensures Live(h, b) && BlockOf(b, h.prs[i]) && Pushed(h.prs[i], a).nfree <= PAGE_SIZE / Size(BlockType(h.prs[i]))
    ensures if |h.fls[i]| + 1 == PAGE_SIZE / Size(BlockType(h.prs[i]))
            then Pushed(h.prs[i], a).nfree == PAGE_SIZE / Size(BlockType(h.prs[i]))
                 && forall h': Heap :: i !in h'.fls && h'.sub == h.sub ==> !Inv(h')
            else Pushed(h.prs[i], a).nfree < PAGE_SIZE / Size(BlockType(h.prs[i]))
                 && !HasFreeList(Pushed(h.prs[i], a), h.mem[a := h.fls[i][0]])
  {
    var pr, fl := h.prs[i], h.fls[i];
    b := SomeBlockUsed(pr, fl, h.mem);
    OnSamePage(h, i, b);
    var pr', mem' := Pushed(pr, a), h.mem[a := fl[0]];
    if HasFreeList(pr', mem') {
      var fl' :| PageOk(pr', fl', mem');
      FreedTwice(pr, fl, h.mem, a, fl');
    }
  }

  ghost predicate HasFreeList(pr: PageRef, mem: map<int, int>) { exists fl :: PageOk(pr, fl, mem) }

  /** A free list shorter than its page misses some block. */
  lemma SomeBlockUsed(pr: PageRef, fl: seq<int>, mem: map<int, int>) returns (b: int)
    requires PageOk(pr, fl, mem) && |fl| < PAGE_SIZE / Size(BlockType(pr))
    ensures BlockOf(b, pr) && b !in fl
  {
    var n, i := PAGE_SIZE / Size(BlockType(pr)), 0;
    ghost var seen: seq<int> := [];
    while i < n && PageAddr(pr) + i * Size(BlockType(pr)) in fl
      invariant 0 <= i <= n && |seen| == i && Distinct(seen)
      invariant forall k :: 0 <= k < i ==> 0 <= seen[k] < |fl| && fl[seen[k]] == PageAddr(pr) + k * Size(BlockType(pr))
      decreases n - i
    {
      var k :| 0 <= k < |fl| && fl[k] == PageAddr(pr) + i * Size(BlockType(pr));
      seen := seen + [k];
      i := i + 1;
    }
    Pigeonhole(seen, |fl|);
    b := PageAddr(pr) + i * Size(BlockType(pr));
    BlockAddress(i, pr);
  }

  lemma NullNotLive(h: Heap)
    requires Inv(h)
    ensures !Live(h, 0) && LiveBlocks(h) - {0} == LiveBlocks(h)
  {
    if 0 in h.sub { SubInRun(h, 0); }
  }

  /** Between h and h' the block of that size at ptr was handed out: it was not live, it overlaps
      no block that was, and nothing else changed for the holders of live blocks. */
  ghost predicate Obtained(h: Heap, h': Heap, ptr: int, size: int) {
    && !Live(h, ptr)
    && LiveBlocks(h') == LiveBlocks(h)[ptr := size]
    && forall b :: Live(h, b) ==> ptr + size <= b || b + LiveSize(h, b) <= ptr
  }

  lemma GrantedApart(h: Heap, h': Heap, ptr: int, size: int)
    requires Inv(h) && Inv(h') && !Live(h, ptr) && LiveBlocks(h') == LiveBlocks(h)[ptr := size]
    ensures Obtained(h, h', ptr, size)
  {
    assert ptr in LiveBlocks(h') && LiveSize(h', ptr) == size;
    forall b | Live(h, b) ensures ptr + size <= b || b + LiveSize(h, b) <= ptr {
      assert b in LiveBlocks(h) && b in LiveBlocks(h') && LiveSize(h', b) == LiveSize(h, b);
      if b < ptr { LiveDisjoint(h', b, ptr); } else { LiveDisjoint(h', ptr, b); }
    }
  }
}
