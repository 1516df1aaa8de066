/**
 SFS block mapping, truncation and reclaim (kern/fs/sfs/sfs_vnode.c), over the
 byte-packed free map. Block I/O is taken to succeed.
 */
module Sfs {
  import opened Words
  import opened SfsModel
  import Bitmap

  datatype Result = Ok(block: nat) | NoSpace | TooBig

  class SfsFs {
    const freemap: Bitmap.Bitmap
    const nblocks: nat
    var disk: map<nat, seq<nat>>
    /** All files as last known; refcount is 0 when a file is not in memory. */
    var vnodes: map<nat, Vnode>
    /** What the inode blocks hold on disk. */
    var inodes: map<nat, Inode>
    var freemapdirty: bool
    ghost const reserved: set<nat>

    ghost function F(): Fs
      reads this
    {
      Fs(vnodes, disk)
    }

    ghost predicate Valid()
      reads this, freemap, freemap.v
    {
      && freemap.Valid() && nblocks <= freemap.nbits
      && (forall b: nat :: nblocks <= b < freemap.nbits ==> b in reserved)
      && Shaped(F(), nblocks)
      && Owned(F(), freemap.Marked(), reserved, nblocks)
      && Synced(vnodes, inodes)
    }

    predicate InMemory(ino: nat)
      reads this
    {
      ino in vnodes && vnodes[ino].refcount >= 1
    }

    /** A volume as it is mounted: its files are on disk, none is in memory. */
    constructor (map_: Bitmap.Bitmap, n: nat, blocks: map<nat, seq<nat>>, files: map<nat, Inode>, ghost kept: set<nat>)
      requires map_.Valid() && n <= map_.nbits && forall b: nat :: n <= b < map_.nbits ==> b in kept
      requires Shaped(Fs(OnDisk(files), blocks), n) && Owned(Fs(OnDisk(files), blocks), map_.Marked(), kept, n)
      ensures Valid() && freemap == map_ && nblocks == n && vnodes == OnDisk(files) && disk == blocks
      ensures inodes == files && reserved == kept
    {
      freemap, nblocks, disk, vnodes, inodes, freemapdirty := map_, n, blocks, OnDisk(files), files, false;
      reserved := kept;
    }

    /** sfs_balloc: a cleared block that nobody uses, or failure when the free map is full. */
    method Balloc() returns (r: Result)
      requires Valid()
      modifies this`disk, this`freemapdirty, freemap.v
      ensures freemap.Valid() && !r.TooBig?
      ensures r.NoSpace? ==> Valid() && disk == old(disk) && freemap.Marked() == old(freemap.Marked())
                             && forall b: nat :: b < nblocks ==> b in freemap.Marked()
      ensures r.Ok? ==> 0 < r.block < nblocks && r.block !in old(freemap.Marked())
                        && freemap.Marked() == old(freemap.Marked()) + {r.block}
                        && disk == old(disk)[r.block := Zeros()]
                        && Shaped(F(), nblocks) && Owned(F(), old(freemap.Marked()), reserved, nblocks)
                        && (forall s :: BlockAt(F(), s) == BlockAt(old(F()), s))
    {
      hide Synced, Owned, Shaped;
      ghost var fs, marked := F(), freemap.Marked();
      Reserved(fs, marked, reserved, nblocks);
      var a := freemap.Alloc();
      match a {
        case NoSpace =>
          return NoSpace;
        case Allocated(b) =>
          freemapdirty := true;
          assert b < nblocks;
          ClearFree(fs, b, marked, reserved, nblocks);
          SameSlots(fs, WithBlock(fs, b, Zeros()), marked, reserved, nblocks);
          Reshaped(fs, b, Zeros(), nblocks);
          disk := disk[b := Zeros()];
          return Ok(b);
      }
    }

    /** sfs_bfree on the block of a slot that the caller has just emptied. */
    method Bfree(b: nat, ghost fs: Fs, ghost slot: Slot)
      requires freemap.Valid() && nblocks <= freemap.nbits
      requires Owned(fs, freemap.Marked(), reserved, nblocks) && BlockAt(fs, slot) == b != 0
      modifies this`freemapdirty, freemap.v
      ensures freemap.Valid() && freemap.Marked() == old(freemap.Marked()) - {b}
    {
      freemap.Unmark(b);
      freemapdirty := true;
    }

    /** The part of sfs_bmap for direct blocks. */
    method BmapDirect(ino: nat, k: nat, doalloc: bool) returns (r: Result)
      requires Valid() && InMemory(ino) && k < NDIRECT
      modifies this, freemap.v
      ensures Valid() && !r.TooBig?
      ensures SameMeta(old(F()), F(), ino)
      ensures Mapped(old(F()), F(), ino, k, doalloc, r)
      ensures r.NoSpace? ==> forall b: nat :: b < nblocks ==> b in freemap.Marked()
    {
      hide Synced, Owned;
      ghost var fs, marked := F(), freemap.Marked();
      var block := vnodes[ino].direct[k];
      if block == 0 && doalloc {
        r := Balloc();
        if r.NoSpace? {
          return;
        }
        block := r.block;
        ghost var fs1 := F();
        var v := vnodes[ino].(direct := vnodes[ino].direct[k := block], dirty := true);
        SetDirect(fs1, ino, k, block, v);
        KeepsSynced(vnodes, inodes, ino, v);
        vnodes := vnodes[ino := v];
        Attach(fs1, F(), Direct(ino, k), block, marked, reserved, nblocks);
      }
      UsedBlock(F(), Direct(ino, k), freemap.Marked(), reserved, nblocks);
      if block != 0 {
        var used := freemap.IsSet(block);
        assert used;
      }
      r := Ok(block);
    }

    /** The part of sfs_bmap that finds or makes the indirect block and gets its contents. */
    method LoadIndirect(ino: nat) returns (r: Result)
      requires Valid() && InMemory(ino)
      modifies this, freemap.v
      ensures Valid() && !r.TooBig? && vnodes.Keys == old(vnodes.Keys)
      ensures SameMeta(old(F()), F(), ino)
      ensures r.NoSpace? ==> F() == old(F()) && forall b: nat :: b < nblocks ==> b in freemap.Marked()
      ensures r.Ok? ==> ino in vnodes && r.block == vnodes[ino].indirect != 0 && r.block < nblocks
      ensures r.Ok? ==> forall s :: s != Indirect(ino) ==> BlockAt(F(), s) == BlockAt(old(F()), s)
      ensures old(vnodes[ino].indirect) != 0 ==> r.Ok? && F() == old(F())
    {
      hide Synced, Owned;
      ghost var fs, marked := F(), freemap.Marked();
      var idblock := vnodes[ino].indirect;
      if idblock == 0 {
        r := Balloc();
        if r.NoSpace? {
          return;
        }
        idblock := r.block;
        ghost var fs1 := F();
        var v := vnodes[ino].(indirect := idblock, dirty := true);
        SetIndirect(fs1, ino, idblock, v);
        KeepsSynced(vnodes, inodes, ino, v);
        vnodes := vnodes[ino := v];
        Attach(fs1, F(), Indirect(ino), idblock, marked, reserved, nblocks);
      }
      UsedBlock(F(), Indirect(ino), freemap.Marked(), reserved, nblocks);
      r := Ok(idblock);
    }

    /** Allocating a block for an empty place in the indirect block. */
    method AllocEntry(ino: nat, idoff: nat) returns (r: Result)
      requires Valid() && InMemory(ino) && idoff < DBPERIDB && vnodes[ino].indirect != 0
      requires MapAt(F(), ino, NDIRECT + idoff) == 0
      modifies this, freemap.v
      ensures Valid() && vnodes == old(vnodes) && !r.TooBig?
      ensures r.NoSpace? ==> F() == old(F()) && forall b: nat :: b < nblocks ==> b in freemap.Marked()
      ensures r.Ok? ==> r.block != 0 && Updated(old(F()), F(), Entry(ino, idoff), r.block)
    {
      hide Synced, Owned;
      ghost var fs, marked := F(), freemap.Marked();
      UsedBlock(fs, Indirect(ino), marked, reserved, nblocks);
      r := Balloc();
      if r.NoSpace? {
        return;
      }
      ghost var fs1 := F();
      var idblock := vnodes[ino].indirect;
      var idbuf: seq<nat> := disk[idblock][idoff := r.block];
      OwnersApart(fs1, marked, reserved, nblocks);
      SetEntry(fs1, ino, idoff, r.block);
      Reshaped(fs1, idblock, idbuf, nblocks);
      disk := disk[idblock := idbuf];
      Attach(fs1, F(), Entry(ino, idoff), r.block, marked, reserved, nblocks);
    }

    /** The part of sfs_bmap for blocks listed in the indirect block. */
    method BmapIndirect(ino: nat, idoff: nat, doalloc: bool) returns (r: Result)
      requires Valid() && InMemory(ino) && idoff < DBPERIDB
      modifies this, freemap.v
      ensures Valid() && !r.TooBig?
      ensures SameMeta(old(F()), F(), ino)
      ensures Mapped(old(F()), F(), ino, NDIRECT + idoff, doalloc, r)
      ensures r.NoSpace? ==> forall b: nat :: b < nblocks ==> b in freemap.Marked()
    {
      hide Synced, Owned;
      if vnodes[ino].indirect == 0 && !doalloc {
        return Ok(0);
      }
      r := LoadIndirect(ino);
      if r.NoSpace? {
        return;
      }
      ghost var fs := F();
      var block := disk[r.block][idoff];
      assert MapAt(fs, ino, NDIRECT + idoff) == block == MapAt(old(F()), ino, NDIRECT + idoff);
      if block == 0 && doalloc {
        r := AllocEntry(ino, idoff);
        if r.NoSpace? {
          return;
        }
        block := r.block;
      }
      UsedBlock(F(), Entry(ino, idoff), freemap.Marked(), reserved, nblocks);
      if block != 0 {
        var used := freemap.IsSet(block);
        assert used;
      }
      r := Ok(block);
    }

    /** sfs_bmap: the disk block of a file block, allocating it on request. */
    method Bmap(ino: nat, fileblock: nat, doalloc: bool) returns (r: Result)
      requires Valid() && InMemory(ino)
      modifies this, freemap.v
      ensures Valid()
      ensures SameMeta(old(F()), F(), ino)
      ensures Mapped(old(F()), F(), ino, fileblock, doalloc, r)
      ensures r.NoSpace? ==> forall b: nat :: b < nblocks ==> b in freemap.Marked()
    {
      hide Synced, Owned;
      if fileblock < NDIRECT {
        r := BmapDirect(ino, fileblock, doalloc);
        return;
      }
      var idnum, idoff := (fileblock - NDIRECT) / DBPERIDB, (fileblock - NDIRECT) % DBPERIDB;
      if idnum > 0 {
        return TooBig;
      }
      r := BmapIndirect(ino, idoff, doalloc);
    }

    /** First loop of sfs_truncate: discard direct blocks past the limit. */
    method TruncateDirect(ino: nat, blocklen: nat)
      requires Valid() && InMemory(ino)
      modifies this, freemap.v
      ensures Valid() && disk == old(disk) && vnodes.Keys == old(vnodes.Keys)
      ensures Dropped(old(F()), F(), ino, blocklen, NDIRECT, 0)
      ensures vnodes[ino].linkcount == old(vnodes[ino].linkcount) && vnodes[ino].refcount == old(vnodes[ino].refcount)
    {
      hide Synced, Owned;
      var i := 0;
      while i < NDIRECT
        invariant i <= NDIRECT && Valid()
        invariant disk == old(disk) && vnodes.Keys == old(vnodes.Keys)
        invariant Dropped(old(F()), F(), ino, blocklen, i, 0)
        invariant vnodes[ino].linkcount == old(vnodes[ino].linkcount)
        invariant vnodes[ino].refcount == old(vnodes[ino].refcount)
      {
        ghost var fs, marked := F(), freemap.Marked();
        var block := vnodes[ino].direct[i];
        assert BlockAt(fs, Direct(ino, i)) == block;
        if i >= blocklen && block != 0 {
          Bfree(block, fs, Direct(ino, i));
          var v := vnodes[ino].(direct := vnodes[ino].direct[i := 0], dirty := true);
          SetDirect(fs, ino, i, 0, v);
          KeepsSynced(vnodes, inodes, ino, v);
          vnodes := vnodes[ino := v];
          Detach(fs, F(), Direct(ino, i), marked, reserved, nblocks);
        }
        i := i + 1;
      }
    }

    /** The loop over the buffered indirect block. The buffer is what the disk will hold. */
    method DiscardEntries(ino: nat, blocklen: nat, idblock: nat)
      returns (idbuf: seq<nat>, hasnonzero: bool, iddirty: bool)
      requires Valid() && InMemory(ino) && vnodes[ino].indirect == idblock != 0 && idblock in disk
      modifies this`freemapdirty, freemap.v
      ensures freemap.Valid() && |idbuf| == DBPERIDB
      ensures Owned(WithBlock(F(), idblock, idbuf), freemap.Marked(), reserved, nblocks)
      ensures Dropped(F(), WithBlock(F(), idblock, idbuf), ino, blocklen, 0, DBPERIDB)
      ensures !iddirty ==> idbuf == disk[idblock]
      ensures hasnonzero <==> !EmptyIndirect(F(), ino, blocklen)
      ensures !hasnonzero ==> forall k :: BlockAt(WithBlock(F(), idblock, idbuf), Entry(ino, k)) == 0
    {
      hide Synced, Owned;
      idbuf, hasnonzero, iddirty := disk[idblock], false, false;
      ghost var fs, nz := F(), 0;
      assert WithBlock(fs, idblock, idbuf) == fs;
      var j := 0;
      while j < DBPERIDB
        invariant j <= DBPERIDB && |idbuf| == DBPERIDB && freemap.Valid()
        invariant Owned(WithBlock(fs, idblock, idbuf), freemap.Marked(), reserved, nblocks)
        invariant Dropped(fs, WithBlock(fs, idblock, idbuf), ino, blocklen, 0, j)
        invariant !iddirty ==> idbuf == fs.disk[idblock]
        invariant if hasnonzero then 0 <= nz < j && idbuf[nz] != 0 else forall x :: 0 <= x < j ==> idbuf[x] == 0
      {
        ghost var fs1, marked := WithBlock(fs, idblock, idbuf), freemap.Marked();
        assert BlockAt(fs1, Entry(ino, j)) == idbuf[j];
        if blocklen < NDIRECT + j && idbuf[j] != 0 {
          Bfree(idbuf[j], fs1, Entry(ino, j));
          OwnersApart(fs1, marked, reserved, nblocks);
          SetEntry(fs1, ino, j, 0);
          idbuf := idbuf[j := 0];
          iddirty := true;
          assert WithBlock(fs1, idblock, idbuf) == WithBlock(fs, idblock, idbuf);
          Detach(fs1, WithBlock(fs, idblock, idbuf), Entry(ino, j), marked, reserved, nblocks);
        }
        if idbuf[j] != 0 {
          hasnonzero := true;
          nz := j;
        }
        j := j + 1;
      }
      ghost var fs1 := WithBlock(fs, idblock, idbuf);
      if hasnonzero { assert BlockAt(fs1, Entry(ino, nz)) == idbuf[nz]; }
      StillThere(fs, fs1, ino, blocklen, hasnonzero, nz);
    }

    /** Second part of sfs_truncate: discard entries of the indirect block past the limit, and the
        indirect block itself once it is empty. */
    method TruncateIndirect(ino: nat, blocklen: nat)
      requires Valid() && InMemory(ino) && vnodes[ino].indirect != 0
      modifies this, freemap.v
      ensures Valid() && vnodes.Keys == old(vnodes.Keys)
      ensures vnodes[ino].indirect == if EmptyIndirect(old(F()), ino, blocklen) then 0 else old(vnodes[ino].indirect)
      ensures if vnodes[ino].indirect == old(vnodes[ino].indirect)
              then Dropped(old(F()), F(), ino, blocklen, 0, DBPERIDB)
              else exists fs1 ::
                Dropped(old(F()), fs1, ino, blocklen, 0, DBPERIDB) && Updated(fs1, F(), Indirect(ino), 0)
      ensures vnodes[ino].linkcount == old(vnodes[ino].linkcount) && vnodes[ino].refcount == old(vnodes[ino].refcount)
    {
      hide Synced, Owned, EmptyIndirect;
      ghost var fs := F();
      var idblock := vnodes[ino].indirect;
      UsedBlock(fs, Indirect(ino), freemap.Marked(), reserved, nblocks);
      var idbuf, hasnonzero, iddirty := DiscardEntries(ino, blocklen, idblock);
      ghost var fs1, marked := WithBlock(fs, idblock, idbuf), freemap.Marked();
      if !hasnonzero {
        SoleIndirect(fs1, ino, marked, reserved, nblocks);
        Bfree(idblock, fs1, Indirect(ino));
        var v := vnodes[ino].(indirect := 0, dirty := true);
        SetIndirect(fs1, ino, 0, v);
        KeepsSynced(vnodes, inodes, ino, v);
        vnodes := vnodes[ino := v];
        OnlyDisk(WithVnode(fs1, ino, v), F(), ino, idblock);
        Detach(fs1, F(), Indirect(ino), marked, reserved, nblocks);
      } else if iddirty {
        Reshaped(fs, idblock, idbuf, nblocks);
        disk := disk[idblock := idbuf];
      } else {
        assert fs1 == fs;
      }
    }

    /** sfs_truncate. len is a signed 64-bit length; the size field keeps its low 32 bits. */
    method Truncate(ino: nat, len: int)
      requires Valid() && InMemory(ino) && IsLength(len)
      modifies this, freemap.v
      ensures Valid() && vnodes.Keys == old(vnodes.Keys)
      ensures Truncated(old(F()), F(), ino, BlockLen(len))
      ensures vnodes[ino].size == len % W32 && vnodes[ino].dirty && (vnodes[ino].size == len <==> 0 <= len < W32)
      ensures vnodes[ino].linkcount == old(vnodes[ino].linkcount) && vnodes[ino].refcount == old(vnodes[ino].refcount)
    {
      hide Synced, Owned, BlockLen, Truncated, Dropped, EmptyIndirect;
      SizeStored(len);
      var blocklen := BlockLen(len);
      ghost var fs := F();
      TruncateDirect(ino, blocklen);
      ghost var fs1 := F();
      IndirectStays(fs, fs1, ino, blocklen);
      if blocklen < HIGHBLOCK && vnodes[ino].indirect != 0 {
        TruncateIndirect(ino, blocklen);
        BothDropped(fs, fs1, F(), ino, blocklen);
      } else {
        NothingIndirect(fs, fs1, ino, blocklen);
      }
      ghost var fs2 := F();
      var v := vnodes[ino].(size := len % W32, dirty := true);
      KeepsSynced(vnodes, inodes, ino, v);
      vnodes := vnodes[ino := v];
      SizeOnly(fs2, F(), ino);
      SameTruncated(fs, fs2, F(), ino, blocklen);
      SameSlots(fs2, F(), freemap.Marked(), reserved, nblocks);
    }

    /** sfs_makeobj: an inode in a fresh block, and a file in memory that owns nothing else. */
    method MakeObj() returns (r: Result)
      requires Valid()
      modifies this, freemap.v
      ensures Valid() && !r.TooBig?
      ensures r.NoSpace? ==> F() == old(F()) && forall b: nat :: b < nblocks ==> b in freemap.Marked()
      ensures r.Ok? ==> r.block !in old(vnodes) && r.block in vnodes
      ensures r.Ok? ==> Updated(old(F()), F(), InodeOf(r.block), r.block)
    {
      hide Synced, Owned;
      ghost var fs, marked := F(), freemap.Marked();
      r := Balloc();
      if r.NoSpace? {
        return;
      }
      ghost var fs1, ino := F(), r.block;
      UsedBlock(fs, InodeOf(ino), marked, reserved, nblocks);
      var v := Vnode(seq(NDIRECT, _ => 0), 0, 0, 0, 1, true);
      AddFile(fs1, ino, v);
      KeepsSynced(vnodes, inodes, ino, v);
      vnodes := vnodes[r.block := v];
      Attach(fs1, F(), InodeOf(ino), ino, marked, reserved, nblocks);
    }

    /** sfs_sync_inode. */
    method SyncInode(ino: nat)
      requires Valid() && ino in vnodes
      modifies this`vnodes, this`inodes
      ensures Valid() && vnodes == old(vnodes)[ino := old(vnodes[ino]).(dirty := false)]
      ensures inodes == old(inodes)[ino := Written(vnodes[ino])]
    {
      hide Owned;
      ghost var fs := F();
      if vnodes[ino].dirty {
        inodes := inodes[ino := Written(vnodes[ino])];
        vnodes := vnodes[ino := vnodes[ino].(dirty := false)];
        SizeOnly(fs, F(), ino);
        SameSlots(fs, F(), freemap.Marked(), reserved, nblocks);
      }
    }

    /** sfs_loadvnode for a file of the volume: one more reference to it if it is in memory; otherwise it is read from
        its inode, and is what it was when it left memory. */
    method LoadVnode(ino: nat)
      requires Valid() && ino in vnodes
      modifies this`vnodes
      ensures Valid() && vnodes == old(vnodes)[ino := old(vnodes[ino]).(refcount := old(vnodes[ino]).refcount + 1)]
      ensures forall s :: BlockAt(F(), s) == BlockAt(old(F()), s)
      ensures forall i :: i in vnodes ==> i in freemap.Marked()
    {
      hide Synced, Owned;
      ghost var fs := F();
      CountSynced(vnodes, inodes, ino, vnodes[ino].refcount + 1);
      InodesUsed(fs, freemap.Marked(), reserved, nblocks);
      if vnodes[ino].refcount > 0 {
        vnodes := vnodes[ino := vnodes[ino].(refcount := vnodes[ino].refcount + 1)];
      } else {
        SameReadBack(vnodes, inodes, ino, 1);
        var used := freemap.IsSet(ino);
        assert used;
        vnodes := vnodes[ino := ReadBack(inodes[ino], 1)];
      }
      SizeOnly(fs, F(), ino);
      SameSlots(fs, F(), freemap.Marked(), reserved, nblocks);
    }

    /** sfs_reclaim for a regular file. With no links left the file gives back every block it owned,
        its inode included; otherwise it is written out and leaves memory. */
    method Reclaim(ino: nat) returns (busy: bool)
      requires Valid() && InMemory(ino)
      modifies this, freemap.v
      ensures Valid() && busy == (old(vnodes[ino].refcount) != 1)
      ensures busy ==> vnodes == old(vnodes)[ino := old(vnodes[ino]).(refcount := old(vnodes[ino].refcount) - 1)]
      ensures !busy && old(vnodes[ino].linkcount) == 0 ==>
                vnodes.Keys == old(vnodes.Keys) - {ino} && Forgotten(old(F()), F(), ino)
      ensures !busy && old(vnodes[ino].linkcount) != 0 ==>
                vnodes == old(vnodes)[ino := old(vnodes[ino]).(refcount := 0, dirty := false)]
      ensures busy || old(vnodes[ino].linkcount) != 0 ==> disk == old(disk) && freemap.Marked() == old(freemap.Marked())
    {
      hide Synced, Owned, BlockLen, Truncated, Forgotten;
      ghost var fs := F();
      if vnodes[ino].refcount != 1 {
        CountSynced(vnodes, inodes, ino, vnodes[ino].refcount - 1);
        vnodes := vnodes[ino := vnodes[ino].(refcount := vnodes[ino].refcount - 1)];
        SizeOnly(fs, F(), ino);
        SameSlots(fs, F(), freemap.Marked(), reserved, nblocks);
        return true;
      }
      var links := vnodes[ino].linkcount;
      if links == 0 {
        EraseFile(ino);
      } else {
        SyncInode(ino);
        ghost var fs1 := F();
        CountSynced(vnodes, inodes, ino, 0);
        vnodes := vnodes[ino := vnodes[ino].(refcount := 0)];
        SizeOnly(fs1, F(), ino);
        SameSlots(fs1, F(), freemap.Marked(), reserved, nblocks);
      }
      return false;
    }

    /** The part of sfs_reclaim for a file without links. */
    method EraseFile(ino: nat)
      requires Valid() && InMemory(ino)
      modifies this, freemap.v
      ensures Valid() && vnodes.Keys == old(vnodes.Keys) - {ino} && Forgotten(old(F()), F(), ino)
    {
      hide Owned, BlockLen, Truncated, Forgotten;
      ghost var fs := F();
      CountOfZero();
      Truncate(ino, 0);
      ghost var fs0 := F();
      SyncInode(ino);
      SizeOnly(fs0, F(), ino);
      SameTruncated(fs, fs0, F(), ino, 0);
      TruncateToNothing(fs, F(), ino);
      ghost var fs1, marked := F(), freemap.Marked();
      Bfree(ino, fs1, InodeOf(ino));
      DropFile(fs1, ino);
      vnodes := vnodes - {ino};
      Detach(fs1, F(), InodeOf(ino), marked, reserved, nblocks);
      AllForgotten(fs, fs1, F(), ino);
    }
  }

  /** Files that are all on disk and not in memory. */
  function OnDisk(files: map<nat, Inode>): map<nat, Vnode> { map i | i in files :: ReadBack(files[i], 0) }

  lemma IndirectStays(fs: Fs, fs1: Fs, ino: nat, blocklen: nat)
    requires Dropped(fs, fs1, ino, blocklen, NDIRECT, 0)
    ensures BlockAt(fs1, Indirect(ino)) == BlockAt(fs, Indirect(ino))
  {
  }

  lemma SameTruncated(fs: Fs, fs1: Fs, fs2: Fs, ino: nat, blocklen: nat)
    requires Truncated(fs, fs1, ino, blocklen) && forall s :: BlockAt(fs2, s) == BlockAt(fs1, s)
    ensures Truncated(fs, fs2, ino, blocklen)
  {
  }

  /** A file cut to nothing and taken out of memory. */
  lemma AllForgotten(fs: Fs, fs1: Fs, fs2: Fs, ino: nat)
    requires Truncated(fs, fs1, ino, 0) && Updated(fs1, fs2, InodeOf(ino), 0)
    ensures Forgotten(fs, fs2, ino)
  {
    TruncateToNothing(fs, fs1, ino);
  }

  lemma Reserved(fs: Fs, marked: set<nat>, reserved: set<nat>, nblocks: nat)
    requires Owned(fs, marked, reserved, nblocks)
    ensures 0 in marked && reserved <= marked
  {
  }

  lemma Reshaped(fs: Fs, b: nat, words: seq<nat>, nblocks: nat)
    requires Shaped(fs, nblocks) && |words| == DBPERIDB
    ensures Shaped(WithBlock(fs, b, words), nblocks)
  {
  }

  /** Mapping leaves other files, and the size and counts of this one, alone. */
  ghost predicate SameMeta(fs: Fs, fs': Fs, ino: nat) {
    && ino in fs.vnodes && ino in fs'.vnodes && fs'.vnodes == fs.vnodes[ino := fs'.vnodes[ino]]
    && fs'.vnodes[ino].size == fs.vnodes[ino].size
    && fs'.vnodes[ino].linkcount == fs.vnodes[ino].linkcount && fs'.vnodes[ino].refcount == fs.vnodes[ino].refcount
  }

  /** What sfs_bmap does to the block map of the files, seen as a finite map. */
  ghost predicate Mapped(fs: Fs, fs': Fs, ino: nat, k: nat, doalloc: bool, r: Result) {
    && fs'.vnodes.Keys == fs.vnodes.Keys
    && (forall i, j :: (i != ino || j != k) ==> MapAt(fs', i, j) == MapAt(fs, i, j))
    && (r.TooBig? <==> k > HIGHBLOCK)
    && (r.Ok? ==> r.block == MapAt(fs', ino, k) && (doalloc ==> r.block != 0))
    && (!doalloc || r.TooBig? || MapAt(fs, ino, k) != 0 ==> fs' == fs && !r.NoSpace?)
    && (r.NoSpace? ==> MapAt(fs', ino, k) == MapAt(fs, ino, k) == 0)
  }

  lemma UsedBlock(fs: Fs, slot: Slot, marked: set<nat>, reserved: set<nat>, nblocks: nat)
    requires Owned(fs, marked, reserved, nblocks)
    ensures BlockAt(fs, slot) != 0 ==> BlockAt(fs, slot) < nblocks && BlockAt(fs, slot) in marked
  {
  }

  /** sfs_loadvnode does not panic: every inode is in an allocated block. */
  lemma InodesUsed(fs: Fs, marked: set<nat>, reserved: set<nat>, nblocks: nat)
    requires Shaped(fs, nblocks) && Owned(fs, marked, reserved, nblocks)
    ensures forall i :: i in fs.vnodes ==> i in marked && i < nblocks
  {
    forall i | i in fs.vnodes ensures i in marked && i < nblocks {
      assert BlockAt(fs, InodeOf(i)) == i;
    }
  }

  lemma OwnersApart(fs: Fs, marked: set<nat>, reserved: set<nat>, nblocks: nat)
    requires Owned(fs, marked, reserved, nblocks)
    ensures Unshared(fs)
  {
  }

  /** Distinct file blocks never share a disk block. */
  lemma MapInjective(fs: Fs, marked: set<nat>, reserved: set<nat>, nblocks: nat, i: nat, j: nat, i': nat, j': nat)
    requires Owned(fs, marked, reserved, nblocks) && (i != i' || j != j') && MapAt(fs, i, j) != 0
    ensures MapAt(fs, i, j) != MapAt(fs, i', j')
  {
    assert SlotOf(i, j) != SlotOf(i', j');
  }

  // ---------------------------------------------------------------- truncation

  /** A signed 64-bit length. */
  predicate IsLength(len: int) { -INT64 <= len < INT64 }

  /** DIVROUNDUP(len, SFS_BLOCKSIZE) on a signed 64-bit len, divided as C does and stored in 32 bits. */
  function BlockLen(len: int): nat {
    var n := Wrap64(len + BLOCKSIZE - 1);
    (if n >= 0 then n / BLOCKSIZE else -(-n / BLOCKSIZE)) % W32
  }

  /** File block k survives truncation to blocklen blocks. The test on indirect blocks is strict. */
  predicate Kept(k: nat, blocklen: nat) {
    k < blocklen || (k == blocklen && k >= NDIRECT)
  }

  /** fs' is fs with the slots below the bound emptied: direct blocks up to i, entries up to j. */
  ghost predicate Dropped(fs: Fs, fs': Fs, ino: nat, blocklen: nat, i: nat, j: nat) {
    forall s :: BlockAt(fs', s) ==
      match s
      case Direct(x, k) => if x == ino && blocklen <= k < i then 0 else BlockAt(fs, s)
      case Entry(x, k) => if x == ino && k < j && blocklen < NDIRECT + k then 0 else BlockAt(fs, s)
      case _ => BlockAt(fs, s)
  }

  /** Once nobody points to it, the contents of the old indirect block do not matter. */
  lemma OnlyDisk(fs: Fs, fs': Fs, ino: nat, b: nat)
    requires fs'.vnodes == fs.vnodes
    requires forall x :: x in fs.disk + fs'.disk && x != b ==>
               x in fs.disk && x in fs'.disk && fs.disk[x] == fs'.disk[x]
    requires forall i :: i in fs.vnodes ==> fs.vnodes[i].indirect != b
    ensures forall s :: BlockAt(fs', s) == BlockAt(fs, s)
  {
  }

  /** Truncation leaves no entry in the indirect block. */
  ghost predicate EmptyIndirect(fs: Fs, ino: nat, blocklen: nat) {
    forall k :: BlockAt(fs, Entry(ino, k)) != 0 ==> blocklen < NDIRECT + k
  }

  lemma StillThere(fs: Fs, fs': Fs, ino: nat, blocklen: nat, some: bool, nz: nat)
    requires Shaped(fs, 0) && Dropped(fs, fs', ino, blocklen, 0, DBPERIDB)
    requires if some then BlockAt(fs', Entry(ino, nz)) != 0 else forall k :: BlockAt(fs', Entry(ino, k)) == 0
    ensures EmptyIndirect(fs, ino, blocklen) <==> !some
  {
    if some {
      assert BlockAt(fs, Entry(ino, nz)) != 0;
    } else {
      forall k | BlockAt(fs, Entry(ino, k)) != 0 ensures blocklen < NDIRECT + k {
        assert BlockAt(fs', Entry(ino, k)) == 0;
      }
    }
  }

  lemma SoleIndirect(fs: Fs, ino: nat, marked: set<nat>, reserved: set<nat>, nblocks: nat)
    requires Owned(fs, marked, reserved, nblocks) && ino in fs.vnodes && fs.vnodes[ino].indirect != 0
    ensures forall i :: i in fs.vnodes && i != ino ==> fs.vnodes[i].indirect != fs.vnodes[ino].indirect
  {
    forall i | i in fs.vnodes && i != ino ensures fs.vnodes[i].indirect != fs.vnodes[ino].indirect {
      assert BlockAt(fs, Indirect(ino)) != BlockAt(fs, Indirect(i));
    }
  }

  /** What sfs_truncate does to every slot. */
  ghost predicate Truncated(fs: Fs, fs': Fs, ino: nat, blocklen: nat) {
    forall s :: BlockAt(fs', s) ==
      match s
      case InodeOf(_) => BlockAt(fs, s)
      case Direct(x, k) => if x == ino && blocklen <= k then 0 else BlockAt(fs, s)
      case Entry(x, k) => if x == ino && blocklen < NDIRECT + k then 0 else BlockAt(fs, s)
      case Indirect(x) =>
        if x == ino && blocklen < HIGHBLOCK && EmptyIndirect(fs, ino, blocklen) then 0 else BlockAt(fs, s)
  }

  lemma BothDropped(fs: Fs, fs1: Fs, fs2: Fs, ino: nat, blocklen: nat)
    requires Shaped(fs, 0) && Shaped(fs1, 0) && blocklen < HIGHBLOCK && ino in fs1.vnodes && ino in fs2.vnodes
    requires Dropped(fs, fs1, ino, blocklen, NDIRECT, 0)
    requires fs2.vnodes[ino].indirect == if EmptyIndirect(fs1, ino, blocklen) then 0 else fs1.vnodes[ino].indirect
    requires fs1.vnodes[ino].indirect != 0
    requires if fs2.vnodes[ino].indirect == fs1.vnodes[ino].indirect then Dropped(fs1, fs2, ino, blocklen, 0, DBPERIDB)
             else exists f :: Dropped(fs1, f, ino, blocklen, 0, DBPERIDB) && Updated(f, fs2, Indirect(ino), 0)
    ensures Truncated(fs, fs2, ino, blocklen)
  {
    SameEntries(fs, fs1, ino, blocklen);
    var f := if fs2.vnodes[ino].indirect == fs1.vnodes[ino].indirect then fs2
             else var f :| Dropped(fs1, f, ino, blocklen, 0, DBPERIDB) && Updated(f, fs2, Indirect(ino), 0); f;
    forall s ensures BlockAt(fs2, s) ==
      match s
      case InodeOf(_) => BlockAt(fs, s)
      case Direct(x, k) => if x == ino && blocklen <= k then 0 else BlockAt(fs, s)
      case Entry(x, k) => if x == ino && blocklen < NDIRECT + k then 0 else BlockAt(fs, s)
      case Indirect(x) =>
        if x == ino && blocklen < HIGHBLOCK && EmptyIndirect(fs, ino, blocklen) then 0 else BlockAt(fs, s)
    {
      assert s != Indirect(ino) ==> BlockAt(fs2, s) == BlockAt(f, s);
      assert BlockAt(f, s) == BlockAt(f, s);
      assert BlockAt(fs1, s) == BlockAt(fs1, s);
    }
  }

  lemma SameEntries(fs: Fs, fs1: Fs, ino: nat, blocklen: nat)
    requires Dropped(fs, fs1, ino, blocklen, NDIRECT, 0)
    ensures EmptyIndirect(fs, ino, blocklen) <==> EmptyIndirect(fs1, ino, blocklen)
  {
    forall k ensures BlockAt(fs1, Entry(ino, k)) == BlockAt(fs, Entry(ino, k)) {}
  }

  lemma NothingIndirect(fs: Fs, fs1: Fs, ino: nat, blocklen: nat)
    requires Shaped(fs, 0) && ino in fs.vnodes && Dropped(fs, fs1, ino, blocklen, NDIRECT, 0)
    requires blocklen >= HIGHBLOCK || BlockAt(fs, Indirect(ino)) == 0
    ensures Truncated(fs, fs1, ino, blocklen)
  {
  }

  /** Fields other than block numbers do not matter to the slots. */
  lemma SizeOnly(fs: Fs, fs': Fs, ino: nat)
    requires ino in fs.vnodes && ino in fs'.vnodes
    requires fs'.vnodes[ino].direct == fs.vnodes[ino].direct && fs'.vnodes[ino].indirect == fs.vnodes[ino].indirect
    requires fs' == WithVnode(fs, ino, fs'.vnodes[ino])
    ensures forall s :: BlockAt(fs', s) == BlockAt(fs, s)
  {
  }

  /** File ino is gone and every other slot is as it was. */
  ghost predicate Forgotten(fs: Fs, fs': Fs, ino: nat) {
    forall s: Slot :: BlockAt(fs', s) == if s.ino == ino then 0 else BlockAt(fs, s)
  }

  /** Cutting a file to length 0 leaves it nothing but its inode. */
  lemma TruncateToNothing(fs: Fs, fs': Fs, ino: nat)
    requires Truncated(fs, fs', ino, 0)
    ensures forall s: Slot :: s.ino == ino && s != InodeOf(ino) ==> BlockAt(fs', s) == 0
  {
  }

  // ---------------------------------------------------------------- what truncation achieves

  /** Exactly the blocks that left a slot are unmarked. */
  lemma TruncateUnmarks(fs: Fs, fs': Fs, ino: nat, blocklen: nat, marked: set<nat>, marked': set<nat>,
                        reserved: set<nat>, nblocks: nat)
    requires Owned(fs, marked, reserved, nblocks) && Owned(fs', marked', reserved, nblocks)
    requires Truncated(fs, fs', ino, blocklen)
    ensures marked' <= marked
    ensures forall b :: b in marked - marked' <==> b != 0 && exists s :: BlockAt(fs, s) == b && BlockAt(fs', s) == 0
  {
    forall b | b in marked' ensures b in marked {
      if b !in reserved {
        var s :| BlockAt(fs', s) == b;
        assert b == 0 || BlockAt(fs, s) == b;
      }
    }
    forall b ensures b in marked - marked' <==> b != 0 && exists s :: BlockAt(fs, s) == b && BlockAt(fs', s) == 0 {
      if b in marked - marked' {
        var s :| BlockAt(fs, s) == b;
        assert BlockAt(fs', s) == 0 || BlockAt(fs', s) == b;
      }
      if b != 0 && exists s :: BlockAt(fs, s) == b && BlockAt(fs', s) == 0 {
        var s :| BlockAt(fs, s) == b && BlockAt(fs', s) == 0;
        LeftItsSlot(fs, fs', ino, blocklen, marked, marked', reserved, nblocks, s);
      }
    }
  }

  lemma LeftItsSlot(fs: Fs, fs': Fs, ino: nat, blocklen: nat, marked: set<nat>, marked': set<nat>,
                    reserved: set<nat>, nblocks: nat, s: Slot)
    requires Owned(fs, marked, reserved, nblocks) && Owned(fs', marked', reserved, nblocks)
    requires Truncated(fs, fs', ino, blocklen)
    requires BlockAt(fs, s) != 0 && BlockAt(fs', s) == 0
    ensures BlockAt(fs, s) in marked && BlockAt(fs, s) !in marked'
  {
    forall t ensures BlockAt(fs', t) != BlockAt(fs, s) {
      if t != s { assert BlockAt(fs', t) == 0 || BlockAt(fs', t) == BlockAt(fs, t); }
    }
  }

  /** The block map afterwards, in terms of the block count that the code computes. */
  lemma TruncatedMap(fs: Fs, fs': Fs, ino: nat, blocklen: nat, i: nat, k: nat)
    requires Truncated(fs, fs', ino, blocklen)
    ensures MapAt(fs', i, k) == if i == ino && !Kept(k, blocklen) then 0 else MapAt(fs, i, k)
  {
  }

  /** The number of blocks that a file of length len reaches into. */
  function EndBlock(len: int): int { (len + BLOCKSIZE - 1) / BLOCKSIZE }

  /** Block k begins before the end exactly when it is below the end block. */
  lemma BelowEnd(k: nat, len: int)
    ensures k * BLOCKSIZE < len <==> k < EndBlock(len)
  {
  }

  /** The size field holds the length exactly when it fits 32 bits unsigned. */
  lemma SizeStored(len: int)
    ensures len % W32 == len <==> 0 <= len < W32
  {
  }

  lemma CountOfZero()
    ensures BlockLen(0) == 0
  {
  }

  /** The block count of the code against the end block. */
  lemma BlockCount(len: int)
    requires IsLength(len)
    ensures 0 <= len < INT64 - BLOCKSIZE + 1 ==> BlockLen(len) == EndBlock(len) % W32
    ensures INT64 - BLOCKSIZE + 1 <= len ==> BlockLen(len) <= 1 && EndBlock(len) == INT64 / BLOCKSIZE
  {
    if INT64 - BLOCKSIZE + 1 <= len { OverflownCount(len); }
  }

  lemma OverflownCount(len: int)
    requires INT64 - BLOCKSIZE + 1 <= len < INT64
    ensures BlockLen(len) <= 1 && EndBlock(len) == INT64 / BLOCKSIZE
  {
    var n := len + BLOCKSIZE - 1 - 2 * INT64;
    assert Wrap64(len + BLOCKSIZE - 1) == n;
    assert -n / BLOCKSIZE == INT64 / BLOCKSIZE || -n / BLOCKSIZE == INT64 / BLOCKSIZE - 1;
  }

  /** Every block that begins before the new end keeps its disk block. */
  ghost predicate KeepsBelow(fs: Fs, fs': Fs, ino: nat, len: int) {
    forall k: nat :: k * BLOCKSIZE < len ==> MapAt(fs', ino, k) == MapAt(fs, ino, k)
  }

  /** No block that begins at the new end or after it is left. */
  ghost predicate DropsRest(fs': Fs, ino: nat, len: int) {
    forall k: nat :: k * BLOCKSIZE >= len ==> MapAt(fs', ino, k) == 0
  }

  /** The block count of len fits 32 bits, or is so large even when cut to them that no file reaches it. */
  predicate CountFits(len: int) {
    len <= 0 || EndBlock(len) < W32 || EndBlock(len) % W32 >= HIGHBLOCK
  }

  /** What the block count of the code would drop is not there. */
  ghost predicate NothingFrom(fs: Fs, ino: nat, blocklen: nat) {
    forall k: nat :: !Kept(k, blocklen) ==> MapAt(fs, ino, k) == 0
  }

  /** What the block count of the code would keep is not there. */
  ghost predicate NothingBelow(fs: Fs, ino: nat, blocklen: nat) {
    forall k: nat :: Kept(k, blocklen) ==> MapAt(fs, ino, k) == 0
  }

  lemma NoSuchBlock(fs: Fs, ino: nat, k: nat)
    requires Shaped(fs, 0) && k > HIGHBLOCK
    ensures MapAt(fs, ino, k) == 0
  {
  }

  /** A length whose block count does not fit loses the last block a file can have. */
  lemma LastBlockLost(len: int)
    requires IsLength(len) && !CountFits(len)
    ensures !Kept(HIGHBLOCK, BlockLen(len)) && HIGHBLOCK * BLOCKSIZE < len
  {
    BlockCount(len);
  }

  lemma FitsKept(len: int, k: nat)
    requires IsLength(len) && CountFits(len) && k * BLOCKSIZE < len && k <= HIGHBLOCK
    ensures Kept(k, BlockLen(len))
  {
    BlockCount(len);
    BelowEnd(k, len);
  }

  /** Every block below the new end stays exactly when the block count of the length fits or the file has none of
      the blocks that the cut count drops; for a file that has the last block there is, exactly when it fits.
      Other files keep all they have. */
  lemma TruncateKeeps(fs: Fs, fs': Fs, ino: nat, len: int)
    requires Truncated(fs, fs', ino, BlockLen(len)) && Shaped(fs, 0) && IsLength(len)
    ensures KeepsBelow(fs, fs', ino, len) <==> CountFits(len) || NothingFrom(fs, ino, BlockLen(len))
    ensures MapAt(fs, ino, HIGHBLOCK) != 0 ==> (KeepsBelow(fs, fs', ino, len) <==> CountFits(len))
    ensures forall i: nat, k: nat :: i != ino ==> MapAt(fs', i, k) == MapAt(fs, i, k)
  {
    hide Truncated, BlockLen, CountFits, Kept, Shaped, MapAt;
    MapsAfter(fs, fs', ino, BlockLen(len));
    if CountFits(len) {
      forall k: nat | k * BLOCKSIZE < len ensures MapAt(fs', ino, k) == MapAt(fs, ino, k) {
        if k <= HIGHBLOCK { FitsKept(len, k); } else { NoSuchBlock(fs, ino, k); }
      }
    } else {
      LastBlockLost(len);
      if KeepsBelow(fs, fs', ino, len) {
        forall k: nat | !Kept(k, BlockLen(len)) ensures MapAt(fs, ino, k) == 0 {
          if k > HIGHBLOCK { NoSuchBlock(fs, ino, k); }
        }
      }
    }
  }

  lemma MapsAfter(fs: Fs, fs': Fs, ino: nat, blocklen: nat)
    requires Truncated(fs, fs', ino, blocklen)
    ensures forall k: nat :: MapAt(fs', ino, k) == if Kept(k, blocklen) then MapAt(fs, ino, k) else 0
    ensures forall i: nat, k: nat :: i != ino ==> MapAt(fs', i, k) == MapAt(fs, i, k)
  {
    forall k: nat ensures MapAt(fs', ino, k) == if Kept(k, blocklen) then MapAt(fs, ino, k) else 0 {
      TruncatedMap(fs, fs', ino, blocklen, ino, k);
    }
    forall i: nat, k: nat | i != ino ensures MapAt(fs', i, k) == MapAt(fs, i, k) {
      TruncatedMap(fs, fs', ino, blocklen, i, k);
    }
  }

  /** The block count of a length that is not positive comes out as 0. */
  predicate CountIsZero(len: int) {
    len > -BLOCKSIZE || -(len + BLOCKSIZE - 1) / BLOCKSIZE % W32 == 0
  }

  lemma NegativeCount(len: int)
    requires IsLength(len) && len <= 0
    ensures BlockLen(len) == 0 <==> CountIsZero(len)
  {
    var n := len + BLOCKSIZE - 1;
    assert Wrap64(n) == n;
    if n < 0 { NegatedResidue(-n / BLOCKSIZE); }
  }

  lemma NegatedResidue(q: int)
    ensures (-q) % W32 == 0 <==> q % W32 == 0
  {
  }

  /** The end block of a positive length, and the block count of the code, when a file can reach it. */
  lemma CountInReach(len: int)
    requires IsLength(len) && len > 0 && EndBlock(len) <= HIGHBLOCK
    ensures BlockLen(len) == EndBlock(len)
  {
    BlockCount(len);
  }

  /** Nothing from the new end on is left exactly in these cases. For a positive length: the first block past the
      end is a direct one, or beyond the reach of a file, or not there. Otherwise: the block count comes out as 0, or
      the file has none of the blocks that the count keeps. */
  lemma TruncateExact(fs: Fs, fs': Fs, ino: nat, len: int)
    requires Truncated(fs, fs', ino, BlockLen(len)) && Shaped(fs, 0) && IsLength(len)
    ensures len > 0 ==> (DropsRest(fs', ino, len)
                         <==> !(NDIRECT <= EndBlock(len) <= HIGHBLOCK && MapAt(fs, ino, EndBlock(len)) != 0))
    ensures len <= 0 ==> (DropsRest(fs', ino, len) <==> CountIsZero(len) || NothingBelow(fs, ino, BlockLen(len)))
    ensures len <= 0 && MapAt(fs, ino, 0) != 0 ==> (DropsRest(fs', ino, len) <==> CountIsZero(len))
  {
    hide Truncated, BlockLen, CountIsZero, Shaped, MapAt;
    MapsAfter(fs, fs', ino, BlockLen(len));
    if len > 0 {
      RestDropped(fs, fs', ino, len);
    } else {
      NegativeCount(len);
    }
  }

  lemma RestDropped(fs: Fs, fs': Fs, ino: nat, len: int)
    requires Shaped(fs, 0) && IsLength(len) && len > 0
    requires forall k: nat :: MapAt(fs', ino, k) == if Kept(k, BlockLen(len)) then MapAt(fs, ino, k) else 0
    ensures DropsRest(fs', ino, len) <==> !(NDIRECT <= EndBlock(len) <= HIGHBLOCK && MapAt(fs, ino, EndBlock(len)) != 0)
  {
    hide BlockLen, Shaped, MapAt;
    var e: nat := EndBlock(len);
    BelowEnd(e, len);
    if e <= HIGHBLOCK { CountInReach(len); }
    if !(NDIRECT <= e <= HIGHBLOCK && MapAt(fs, ino, e) != 0) {
      forall k: nat | k * BLOCKSIZE >= len ensures MapAt(fs', ino, k) == 0 {
        BelowEnd(k, len);
        if k > HIGHBLOCK { NoSuchBlock(fs, ino, k); }
      }
    }
  }

  /** Cutting any file to 2^41 bytes empties it, although every block it can have lies below that. */
  lemma CutToNothing(fs: Fs, fs': Fs, ino: nat, k: nat)
    requires Truncated(fs, fs', ino, BlockLen(0x200_0000_0000)) && k <= HIGHBLOCK
    ensures k * BLOCKSIZE < 0x200_0000_0000 && MapAt(fs', ino, k) == 0
  {
    assert BlockLen(0x200_0000_0000) == 0;
    TruncatedMap(fs, fs', ino, 0, ino, k);
  }

  /** Cutting a file to -1024 bytes leaves it as it is. */
  lemma CutToNegative(fs: Fs, fs': Fs, ino: nat, k: nat)
    requires Truncated(fs, fs', ino, BlockLen(-1024)) && Shaped(fs, 0)
    ensures MapAt(fs', ino, k) == MapAt(fs, ino, k)
  {
    assert BlockLen(-1024) == 0xffff_ffff;
    TruncatedMap(fs, fs', ino, 0xffff_ffff, ino, k);
    if k > HIGHBLOCK { NoSuchBlock(fs, ino, k); }
  }

  /** A file of 17 blocks cut to 15 blocks keeps a 16th. */
  lemma OneBlockTooMany() returns (fs: Fs)
    ensures MapAt(fs, 5, 15) == 7 && MapAt(fs, 5, 16) == 8
    ensures BlockLen(15 * BLOCKSIZE) == 15
    ensures forall fs' :: Truncated(fs, fs', 5, 15) ==> MapAt(fs', 5, 15) == 7 && MapAt(fs', 5, 16) == 0
  {
    var v := Vnode(seq(NDIRECT, i => 20 + i), 6, 17 * BLOCKSIZE, 1, 1, false);
    fs := Fs(map[5 := v], map[6 := [7, 8] + seq(DBPERIDB - 2, _ => 0)]);
    forall fs' | Truncated(fs, fs', 5, 15) ensures MapAt(fs', 5, 15) == 7 && MapAt(fs', 5, 16) == 0 {
      TruncatedMap(fs, fs', 5, 15, 5, 15);
      TruncatedMap(fs, fs', 5, 15, 5, 16);
    }
  }
}
