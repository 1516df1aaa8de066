/**
 Which disk block belongs to what in SFS (kern/fs/sfs/sfs_vnode.c): a file owns
 its inode block, its direct blocks, its indirect block and the blocks listed
 there. Every place that can hold a block number is a slot.
 */
module SfsModel {

  const NDIRECT := 15
  const DBPERIDB := 128
  const BLOCKSIZE := 512
  /** The highest file block an indirect block can hold. */
  const HIGHBLOCK := NDIRECT + DBPERIDB - 1

  datatype Vnode = Vnode(direct: seq<nat>, indirect: nat, size: int, linkcount: nat, refcount: nat, dirty: bool)

  /** What the block of an inode holds on disk. */
  datatype Inode = Inode(direct: seq<nat>, indirect: nat, size: int, linkcount: nat)

  /** vnodes: the files, by inode number; disk: contents of blocks, as words. */
  datatype Fs = Fs(vnodes: map<nat, Vnode>, disk: map<nat, seq<nat>>)

  datatype Slot = InodeOf(ino: nat) | Direct(ino: nat, k: nat) | Indirect(ino: nat) | Entry(ino: nat, k: nat)

  /** The block number in a slot; 0 means none. */
  function BlockAt(fs: Fs, s: Slot): nat {
    if s.ino !in fs.vnodes then 0
    else
      var v := fs.vnodes[s.ino];
      match s
      case InodeOf(ino) => ino
      case Direct(_, k) => if k < |v.direct| then v.direct[k] else 0
      case Indirect(_) => v.indirect
      case Entry(_, k) =>
        if v.indirect != 0 && v.indirect in fs.disk && k < |fs.disk[v.indirect]| then fs.disk[v.indirect][k] else 0
  }

  /** The slot that maps block k of a file. */
  function SlotOf(ino: nat, k: nat): Slot {
    if k < NDIRECT then Direct(ino, k) else Entry(ino, k - NDIRECT)
  }

  /** The disk block of block k of a file, 0 if there is none. */
  function MapAt(fs: Fs, ino: nat, k: nat): nat { BlockAt(fs, SlotOf(ino, k)) }

  /** Tables have their fixed sizes; every block of the volume has contents. */
  ghost predicate Shaped(fs: Fs, nblocks: nat) {
    && (forall ino :: ino in fs.vnodes ==> ino != 0 && |fs.vnodes[ino].direct| == NDIRECT)
    && (forall b :: 0 <= b < nblocks ==> b in fs.disk)
    && (forall b :: b in fs.disk ==> |fs.disk[b]| == DBPERIDB)
  }

  /** No two slots hold the same block. */
  ghost predicate Unshared(fs: Fs) {
    forall s, t :: s != t && BlockAt(fs, s) != 0 ==> BlockAt(fs, s) != BlockAt(fs, t)
  }

  /** Blocks in slots are on the volume, marked in use, and not among the reserved ones. */
  ghost predicate InUse(fs: Fs, marked: set<nat>, reserved: set<nat>, nblocks: nat) {
    forall s :: BlockAt(fs, s) != 0 ==>
      BlockAt(fs, s) < nblocks && BlockAt(fs, s) in marked && BlockAt(fs, s) !in reserved
  }

  /** Every marked block is reserved or in some slot: no block is lost. */
  ghost predicate NoLeak(fs: Fs, marked: set<nat>, reserved: set<nat>) {
    forall b :: b in marked ==> b in reserved || exists s :: BlockAt(fs, s) == b
  }

  /** The block ownership invariant. Reserved are the superblock, the free map itself, and the bits past the end of
      the volume. */
  ghost predicate Owned(fs: Fs, marked: set<nat>, reserved: set<nat>, nblocks: nat) {
    && 0 in reserved && reserved <= marked && Unshared(fs)
    && InUse(fs, marked, reserved, nblocks) && NoLeak(fs, marked, reserved)
  }

  /** What sfs_sync_inode writes. */
  function Written(v: Vnode): Inode { Inode(v.direct, v.indirect, v.size, v.linkcount) }

  /** The file as read back from its inode. */
  function ReadBack(i: Inode, refcount: nat): Vnode {
    Vnode(i.direct, i.indirect, i.size, i.linkcount, refcount, false)
  }

  /** A file that is not marked dirty is on disk as it is, and so is every file that is not in memory. */
  ghost predicate Synced(vnodes: map<nat, Vnode>, inodes: map<nat, Inode>) {
    forall i :: i in vnodes ==>
      && (vnodes[i].refcount == 0 ==> !vnodes[i].dirty)
      && (!vnodes[i].dirty ==> i in inodes && inodes[i] == Written(vnodes[i]))
  }

  /** A change in memory that marks the file dirty. */
  lemma KeepsSynced(vnodes: map<nat, Vnode>, inodes: map<nat, Inode>, ino: nat, v: Vnode)
    requires Synced(vnodes, inodes) && v.dirty && v.refcount >= 1
    ensures Synced(vnodes[ino := v], inodes)
  {
  }

  /** A change of the reference count of a file. */
  lemma CountSynced(vnodes: map<nat, Vnode>, inodes: map<nat, Inode>, ino: nat, n: nat)
    requires Synced(vnodes, inodes) && ino in vnodes && (n == 0 ==> !vnodes[ino].dirty)
    ensures Synced(vnodes[ino := vnodes[ino].(refcount := n)], inodes)
  {
  }

  /** What is read back of a file that is not in memory is the file. */
  lemma SameReadBack(vnodes: map<nat, Vnode>, inodes: map<nat, Inode>, ino: nat, n: nat)
    requires Synced(vnodes, inodes) && ino in vnodes && vnodes[ino].refcount == 0
    ensures ino in inodes && ReadBack(inodes[ino], n) == vnodes[ino].(refcount := n)
  {
  }

  /** fs' differs from fs in one slot only. */
  ghost predicate Updated(fs: Fs, fs': Fs, slot: Slot, b: nat) {
    forall s :: BlockAt(fs', s) == if s == slot then b else BlockAt(fs, s)
  }

  /** A block just taken from the free map goes into an empty slot. */
  lemma Attach(fs: Fs, fs': Fs, slot: Slot, b: nat, marked: set<nat>, reserved: set<nat>, nblocks: nat)
    requires Owned(fs, marked, reserved, nblocks) && b !in marked && b < nblocks
    requires BlockAt(fs, slot) == 0 && Updated(fs, fs', slot, b)
    ensures Owned(fs', marked + {b}, reserved, nblocks)
  {
    forall x | x in marked + {b} ensures x in reserved || exists s :: BlockAt(fs', s) == x {
      if x == b {
        assert BlockAt(fs', slot) == b;
      } else if x !in reserved {
        var s :| BlockAt(fs, s) == x;
        assert BlockAt(fs', s) == x;
      }
    }
  }

  /** The block of a slot goes back to the free map and the slot becomes empty. */
  lemma Detach(fs: Fs, fs': Fs, slot: Slot, marked: set<nat>, reserved: set<nat>, nblocks: nat)
    requires Owned(fs, marked, reserved, nblocks) && BlockAt(fs, slot) != 0 && Updated(fs, fs', slot, 0)
    ensures Owned(fs', marked - {BlockAt(fs, slot)}, reserved, nblocks)
  {
    var b := BlockAt(fs, slot);
    forall s | BlockAt(fs', s) != 0 ensures BlockAt(fs', s) != b { assert BlockAt(fs', s) == BlockAt(fs, s); }
    forall x | x in marked - {b} ensures x in reserved || exists s :: BlockAt(fs', s) == x {
      if x !in reserved {
        var s :| BlockAt(fs, s) == x;
        assert BlockAt(fs', s) == x;
      }
    }
  }

  /** The marked blocks are exactly the reserved ones and those in slots. */
  lemma MarkedExactly(fs: Fs, marked: set<nat>, reserved: set<nat>, nblocks: nat, b: nat)
    requires Owned(fs, marked, reserved, nblocks) && b != 0
    ensures b in marked <==> b in reserved || exists s :: BlockAt(fs, s) == b
  {
  }

  // ---------------------------------------------------------------- single updates

  ghost function WithVnode(fs: Fs, ino: nat, v: Vnode): Fs {
    fs.(vnodes := fs.vnodes[ino := v])
  }

  ghost function WithBlock(fs: Fs, b: nat, words: seq<nat>): Fs {
    fs.(disk := fs.disk[b := words])
  }

  function Zeros(): seq<nat> { seq(DBPERIDB, _ => 0) }

  /** Clearing a block that is not in use changes no slot. */
  lemma ClearFree(fs: Fs, b: nat, marked: set<nat>, reserved: set<nat>, nblocks: nat)
    requires Owned(fs, marked, reserved, nblocks) && b !in marked
    ensures forall s :: BlockAt(WithBlock(fs, b, Zeros()), s) == BlockAt(fs, s)
  {
    var fs' := WithBlock(fs, b, Zeros());
    forall s ensures BlockAt(fs', s) == BlockAt(fs, s) {
      if s.Entry? { assert BlockAt(fs, Indirect(s.ino)) != 0 ==> BlockAt(fs, Indirect(s.ino)) in marked; }
    }
  }

  lemma SetDirect(fs: Fs, ino: nat, k: nat, b: nat, v: Vnode)
    requires ino in fs.vnodes && k < |fs.vnodes[ino].direct|
    requires v == fs.vnodes[ino].(direct := fs.vnodes[ino].direct[k := b], dirty := v.dirty)
    ensures Updated(fs, WithVnode(fs, ino, v), Direct(ino, k), b)
  {
  }

  /** A new indirect block is empty, or an indirect block that became empty goes away. */
  lemma SetIndirect(fs: Fs, ino: nat, b: nat, v: Vnode)
    requires ino in fs.vnodes && v == fs.vnodes[ino].(indirect := b, dirty := v.dirty)
    requires forall k :: BlockAt(fs, Entry(ino, k)) == 0
    requires b in fs.disk && b != 0 ==> fs.disk[b] == Zeros()
    ensures Updated(fs, WithVnode(fs, ino, v), Indirect(ino), b)
  {
    var fs' := WithVnode(fs, ino, v);
    forall s ensures BlockAt(fs', s) == if s == Indirect(ino) then b else BlockAt(fs, s) {
      if s.Entry? && s.ino == ino { assert BlockAt(fs, Entry(ino, s.k)) == 0; }
    }
  }

  /** Writing an indirect block changes only the entries that differ. */
  lemma SetEntry(fs: Fs, ino: nat, k: nat, b: nat)
    requires ino in fs.vnodes && fs.vnodes[ino].indirect != 0 && fs.vnodes[ino].indirect in fs.disk
    requires k < |fs.disk[fs.vnodes[ino].indirect]| && Unshared(fs)
    ensures var ib := fs.vnodes[ino].indirect;
            Updated(fs, WithBlock(fs, ib, fs.disk[ib][k := b]), Entry(ino, k), b)
  {
    var ib := fs.vnodes[ino].indirect;
    var fs' := WithBlock(fs, ib, fs.disk[ib][k := b]);
    forall s ensures BlockAt(fs', s) == if s == Entry(ino, k) then b else BlockAt(fs, s) {
      if s.Entry? && s.ino != ino { assert BlockAt(fs, Indirect(ino)) != BlockAt(fs, Indirect(s.ino)); }
    }
  }

  /** A new file with no blocks but its inode. */
  lemma AddFile(fs: Fs, ino: nat, v: Vnode)
    requires ino !in fs.vnodes && v.direct == seq(NDIRECT, _ => 0) && v.indirect == 0
    ensures Updated(fs, WithVnode(fs, ino, v), InodeOf(ino), ino)
  {
  }

  /** A file with no blocks but its inode goes away. */
  lemma DropFile(fs: Fs, ino: nat)
    requires ino in fs.vnodes
    requires forall s: Slot :: s.ino == ino && s != InodeOf(ino) ==> BlockAt(fs, s) == 0
    ensures Updated(fs, fs.(vnodes := fs.vnodes - {ino}), InodeOf(ino), 0)
  {
  }

  /** Slots that hold the same blocks are owned alike. */
  lemma SameSlots(fs: Fs, fs': Fs, marked: set<nat>, reserved: set<nat>, nblocks: nat)
    requires Owned(fs, marked, reserved, nblocks) && forall s :: BlockAt(fs', s) == BlockAt(fs, s)
    ensures Owned(fs', marked, reserved, nblocks)
  {
    forall b | b in marked ensures b in reserved || exists s :: BlockAt(fs', s) == b {
      if b !in reserved {
        var s :| BlockAt(fs, s) == b;
        assert BlockAt(fs', s) == b;
      }
    }
  }
}
