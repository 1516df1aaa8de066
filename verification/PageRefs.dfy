/**
 The page records of the subpage allocator (kern/vm/kmalloc.c): the packed
 record, the words that mark records in use, and the singly linked lists
 threaded through the records. A pointer to a record is its index in the
 table; NULL is -1.
 */
module PageRefs {
  import opened Common

  const PAGE_SIZE := 4096
  const NSIZES := 8
  const NPAGEREFS := 256
  const INUSE_WORDS := 8
  const WORD_BITS := 32
  const INVALID_OFFSET := 0xffff
  const NULL := -1

  datatype PageRef = PageRef(nextSame: int, nextAll: int, pab: int, flOffset: int, nfree: int)

  /** MKPAB, PR_PAGEADDR and PR_BLOCKTYPE: page address and block type share a word. */
  function MkPab(pa: int, blk: int): int { pa / PAGE_SIZE * PAGE_SIZE + blk % PAGE_SIZE }
  function PageAddr(pr: PageRef): int { pr.pab / PAGE_SIZE * PAGE_SIZE }
  function BlockType(pr: PageRef): int { pr.pab % PAGE_SIZE }

  lemma Unpack(pr: PageRef, pa: int, blk: int)
    requires pa % PAGE_SIZE == 0 && 0 <= blk < PAGE_SIZE && pr.pab == MkPab(pa, blk)
    ensures PageAddr(pr) == pa && BlockType(pr) == blk
  {
  }

  // ---------------------------------------------------------------- records in use

  const FULL: bv32 := 0xffff_ffff

  function Mask(j: nat): bv32
    requires j < WORD_BITS
  {
    (1 as bv32) << j
  }

  predicate On(w: bv32, j: nat)
    requires j < WORD_BITS
  {
    w & Mask(j) != 0
  }

  function TurnOn(w: bv32, k: nat): bv32
    requires k < WORD_BITS
  {
    w | Mask(k)
  }

  function TurnOff(w: bv32, k: nat): bv32
    requires k < WORD_BITS
  {
    w & !Mask(k)
  }

  lemma OnAfterOn(w: bv32, k: nat, j: nat)
    requires k < WORD_BITS && j < WORD_BITS
    ensures On(TurnOn(w, k), j) <==> (j == k || On(w, j))
  {
    assert TurnOn(w, k) == w | Mask(k);
    if j == k { MaskedSame(w, k); } else { MaskedOther(w, k, j); }
  }

  lemma OnAfterOff(w: bv32, k: nat, j: nat)
    requires k < WORD_BITS && j < WORD_BITS
    ensures On(TurnOff(w, k), j) <==> (j != k && On(w, j))
  {
    assert TurnOff(w, k) == w & !Mask(k);
    if j == k { MaskedSame(w, k); } else { MaskedOther(w, k, j); }
  }

  lemma MaskedSame(w: bv32, k: nat)
    requires k < WORD_BITS
    ensures (w | Mask(k)) & Mask(k) == Mask(k) != 0 && (w & !Mask(k)) & Mask(k) == 0
  {
    Masks(k, k);
    SameMask(w, Mask(k));
  }

  lemma MaskedOther(w: bv32, k: nat, j: nat)
    requires k < WORD_BITS && j < WORD_BITS && k != j
    ensures (w | Mask(k)) & Mask(j) == w & Mask(j) == (w & !Mask(k)) & Mask(j)
  {
    Masks(k, j);
    OtherMask(w, Mask(k), Mask(j));
  }

  lemma Masks(k: nat, j: nat)
    requires k < WORD_BITS && j < WORD_BITS
    ensures Mask(k) != 0
    ensures k != j ==> Mask(k) & Mask(j) == 0
  {
  }

  lemma SameMask(w: bv32, m: bv32)
    ensures (w | m) & m == m && (w & !m) & m == 0
  {
  }

  lemma OtherMask(w: bv32, m: bv32, n: bv32)
    requires m & n == 0
    ensures (w | m) & n == w & n && (w & !m) & n == w & n
  {
  }

  lemma FullWord(w: bv32, j: nat)
    requires j < WORD_BITS && w == FULL
    ensures On(w, j)
  {
  }

  lemma SomeClear(w: bv32)
    requires forall j :: 0 <= j < WORD_BITS ==> On(w, j)
    ensures w == FULL
  {
    hide On;
    FirstByte(w);
    SecondByte(w);
    ThirdByte(w);
    FourthByte(w);
    FourBytes(w);
  }

  lemma FirstByte(w: bv32)
    requires On(w, 0) && On(w, 1) && On(w, 2) && On(w, 3) && On(w, 4) && On(w, 5) && On(w, 6) && On(w, 7)
    ensures w & 0xff == 0xff
  {
  }

  lemma SecondByte(w: bv32)
    requires On(w, 8) && On(w, 9) && On(w, 10) && On(w, 11) && On(w, 12) && On(w, 13) && On(w, 14) && On(w, 15)
    ensures w & 0xff00 == 0xff00
  {
  }

  lemma ThirdByte(w: bv32)
    requires On(w, 16) && On(w, 17) && On(w, 18) && On(w, 19) && On(w, 20) && On(w, 21) && On(w, 22) && On(w, 23)
    ensures w & 0xff0000 == 0xff0000
  {
  }

  lemma FourthByte(w: bv32)
    requires On(w, 24) && On(w, 25) && On(w, 26) && On(w, 27) && On(w, 28) && On(w, 29) && On(w, 30) && On(w, 31)
    ensures w & 0xff000000 == 0xff000000
  {
  }

  lemma FourBytes(w: bv32)
    requires w & 0xff == 0xff && w & 0xff00 == 0xff00 && w & 0xff0000 == 0xff0000 && w & 0xff000000 == 0xff000000
    ensures w == FULL
  {
  }

  predicate Used(s: seq<bv32>, i: nat)
    requires i < |s| * WORD_BITS
  {
    On(s[i / WORD_BITS], i % WORD_BITS)
  }

  ghost function UsedSet(s: seq<bv32>): set<int> {
    set i: int | 0 <= i < |s| * WORD_BITS && Used(s, i)
  }

  lemma NothingUsed(s: seq<bv32>)
    requires forall i :: 0 <= i < |s| ==> s[i] == 0
    ensures UsedSet(s) == {}
  {
    forall i: int | 0 <= i < |s| * WORD_BITS ensures !Used(s, i) { ZeroWord(i % WORD_BITS); }
  }

  lemma ZeroWord(j: nat)
    requires j < WORD_BITS
    ensures !On(0, j)
  {
  }

  /** The inner search of allocpageref: the first clear bit of a word that has one. */
  method FirstClear(w: bv32) returns (j: nat)
    requires w != FULL
    ensures j < WORD_BITS && !On(w, j)
  {
    j := 0;
    while On(w, j)
      invariant j < WORD_BITS
      invariant forall x :: 0 <= x < j ==> On(w, x)
      decreases WORD_BITS - j
    {
      j := j + 1;
      if j == WORD_BITS {
        SomeClear(w);
        assert false;
      }
    }
  }

  lemma MarkUsed(s: seq<bv32>, i: nat)
    requires i < |s| * WORD_BITS
    ensures UsedSet(s[i / WORD_BITS := TurnOn(s[i / WORD_BITS], i % WORD_BITS)]) == UsedSet(s) + {i}
  {
    var w, k := s[i / WORD_BITS], i % WORD_BITS;
    var s' := s[i / WORD_BITS := TurnOn(w, k)];
    forall j: int | 0 <= j < |s| * WORD_BITS ensures Used(s', j) <==> (j == i || Used(s, j)) {
      OnAfterOn(w, k, j % WORD_BITS);
    }
  }

  lemma MarkFree(s: seq<bv32>, i: nat)
    requires i < |s| * WORD_BITS
    ensures UsedSet(s[i / WORD_BITS := TurnOff(s[i / WORD_BITS], i % WORD_BITS)]) == UsedSet(s) - {i}
  {
    var w, k := s[i / WORD_BITS], i % WORD_BITS;
    var s' := s[i / WORD_BITS := TurnOff(w, k)];
    forall j: int | 0 <= j < |s| * WORD_BITS ensures Used(s', j) <==> (j != i && Used(s, j)) {
      OnAfterOff(w, k, j % WORD_BITS);
    }
  }

  /** allocpageref: some unused record, or NULL exactly when all are in use. */
  method AllocPageRef(inuse: array<bv32>) returns (p: int)
    requires inuse.Length == INUSE_WORDS
    modifies inuse
    ensures p == NULL ==> inuse[..] == old(inuse[..]) && forall i: int :: 0 <= i < NPAGEREFS ==> i in UsedSet(inuse[..])
    ensures p != NULL ==> 0 <= p < NPAGEREFS && p !in UsedSet(old(inuse[..]))
                          && UsedSet(inuse[..]) == UsedSet(old(inuse[..])) + {p}
  {
    for i := 0 to INUSE_WORDS
      invariant inuse[..] == old(inuse[..])
      invariant forall x :: 0 <= x < i ==> inuse[x] == FULL
    {
      if inuse[i] != FULL {
        var j := FirstClear(inuse[i]);
        p := i * 32 + j;
        assert p / WORD_BITS == i && p % WORD_BITS == j;
        assert !Used(inuse[..], p);
        MarkUsed(inuse[..], p);
        ghost var s := inuse[..];
        inuse[i] := TurnOn(inuse[i], j);
        assert inuse[..] == s[i := TurnOn(s[i], j)];
        return;
      }
    }
    forall x: int | 0 <= x < NPAGEREFS ensures x in UsedSet(inuse[..]) {
      FullWord(inuse[x / WORD_BITS], x % WORD_BITS);
      assert Used(inuse[..], x);
    }
    return NULL;
  }

  /** freepageref. */
  method FreePageRef(inuse: array<bv32>, p: int)
    requires inuse.Length == INUSE_WORDS && p in UsedSet(inuse[..])
    modifies inuse
    ensures UsedSet(inuse[..]) == UsedSet(old(inuse[..])) - {p}
  {
    var i, j := p / 32, p % 32;
    assert On(inuse[i], j) by { assert Used(inuse[..], p); }
    MarkFree(inuse[..], p);
    ghost var s := inuse[..];
    inuse[i] := TurnOff(inuse[i], j);
    assert inuse[..] == s[i := TurnOff(s[i], j)];
  }

  // ---------------------------------------------------------------- lists of records

  /** Which of the two lists a link belongs to. */
  datatype List = SameSize | All

  function Next(pr: PageRef, which: List): int {
    match which
    case SameSize => pr.nextSame
    case All => pr.nextAll
  }

  function SetNext(pr: PageRef, which: List, to: int): PageRef {
    match which
    case SameSize => pr.(nextSame := to)
    case All => pr.(nextAll := to)
  }

  function At(l: seq<int>, i: nat): int {
    if i < |l| then l[i] else NULL
  }

  /** The link of record l[i] leads to the next record of l, or to NULL. */
  ghost predicate LinkAt(prs: seq<PageRef>, l: seq<int>, i: nat, which: List)
    requires i < |l|
  {
    0 <= l[i] < |prs| && Next(prs[l[i]], which) == At(l, i + 1)
  }

  /** Following the links from base visits exactly the records of l, in order, and stops. */
  ghost predicate Linked(prs: seq<PageRef>, base: int, l: seq<int>, which: List) {
    && Distinct(l)
    && base == At(l, 0)
    && (forall i :: 0 <= i < |l| ==> 0 <= l[i] < |prs|)
    && (forall i :: 0 <= i < |l| ==> LinkAt(prs, l, i, which))
  }

  function Without(l: seq<int>, k: nat): seq<int>
    requires k < |l|
  {
    l[..k] + l[k + 1..]
  }

  lemma WithoutMembers(l: seq<int>, k: nat)
    requires k < |l| && Distinct(l)
    ensures Distinct(Without(l, k))
    ensures forall x :: x in Without(l, k) <==> x in l && x != l[k]
  {
    var w := Without(l, k);
    forall x | x in l && x != l[k] ensures x in w {
      var i :| 0 <= i < |l| && l[i] == x;
      if i < k { assert w[i] == x; } else { assert w[i - 1] == x; }
    }
  }

  /** prs' differs from prs in at most one record, and there only in one kind of link. */
  ghost predicate OneLink(prs: seq<PageRef>, prs': seq<PageRef>, which: List, c: int) {
    |prs'| == |prs| && forall i :: 0 <= i < |prs| ==>
      prs'[i] == if i == c then SetNext(prs[i], which, Next(prs'[i], which)) else prs[i]
  }

  /** One loop of remove_lists: walk a pointer to the link that leads to pr, and redirect it. */
  method RemoveFrom(prs: array<PageRef>, base: int, pr: int, which: List, ghost l: seq<int>, ghost k: nat)
    returns (base': int)
    requires Linked(prs[..], base, l, which) && k < |l| && l[k] == pr
    modifies prs
    ensures Linked(prs[..], base', Without(l, k), which)
    ensures OneLink(old(prs[..]), prs[..], which, if k > 0 then l[k - 1] else NULL)
  {
    base' := base;
    var guy, target := NULL, base;
    ghost var n := 0;
    while target != NULL
      invariant prs[..] == old(prs[..]) && base' == base
      invariant 0 <= n <= k && target == At(l, n)
      invariant guy == if n == 0 then NULL else l[n - 1]
      decreases |l| - n
    {
      if target == pr {
        if guy == NULL {
          base' := Next(prs[pr], which);
        } else {
          prs[guy] := SetNext(prs[guy], which, Next(prs[pr], which));
        }
        break;
      }
      assert LinkAt(prs[..], l, n, which);
      guy, target := target, Next(prs[target], which);
      n := n + 1;
    }
    assert n == k;
    assert LinkAt(old(prs[..]), l, k, which);
    Relinked(old(prs[..]), prs[..], base, base', l, k, which);
  }

  lemma Relinked(prs: seq<PageRef>, prs': seq<PageRef>, base: int, base': int, l: seq<int>, k: nat, which: List)
    requires Linked(prs, base, l, which) && k < |l| && |prs'| == |prs|
    requires base' == if k == 0 then At(l, 1) else base
    requires prs' == if k == 0 then prs else prs[l[k - 1] := SetNext(prs[l[k - 1]], which, At(l, k + 1))]
    ensures Linked(prs', base', Without(l, k), which)
  {
    var w := Without(l, k);
    WithoutMembers(l, k);
    forall i | 0 <= i < |w| ensures LinkAt(prs', w, i, which) {
      if i < k { assert LinkAt(prs, l, i, which); } else { assert LinkAt(prs, l, i + 1, which); }
    }
  }
}
