/**
 Reading and writing a file (sfs_partialio, sfs_blockio and sfs_io in
 kern/fs/sfs/sfs_vnode.c): how a byte range is cut into pieces, which disk
 blocks they go to, and what happens to the uio and the file size.
 */
module SfsIo {
  import opened Words
  import opened SfsModel
  import opened Sfs
  import opened Uio

  /** The block number is kept in 32 bits. */
  function FileBlock(pos: nat): nat { pos / BLOCKSIZE % W32 }

  /** Bytes moved at a position of the file. block is the disk block that the file has there, 0 for a hole; sector is
      the one that the device was asked for, and whole tells whether as a whole block by sfs_blockio. */
  datatype Piece = Piece(pos: nat, data: seq<bv8>, block: nat, sector: nat, whole: bool)

  /** The state of a uio. */
  datatype Cursor = Cursor(addrs: seq<nat>, mem: Memory, offset: nat, resid: nat)

  /** The bytes in data went through the uio: into the buffers on reading, out of them on writing. */
  ghost predicate Passed(read: bool, c: Cursor, c': Cursor, data: seq<bv8>) {
    var m := |data|;
    && m <= c.resid <= |c.addrs| && c'.offset == c.offset + m && c'.resid == c.resid - m && c'.addrs == c.addrs[m..]
    && Present(c.addrs[..m], c.mem)
    && if read then c'.mem == Store(c.mem, c.addrs[..m], data)
       else c'.mem == c.mem && data == Fetch(c.mem, c.addrs[..m])
  }

  lemma PassedTwice(read: bool, c: Cursor, c1: Cursor, c2: Cursor, d: seq<bv8>, e: seq<bv8>)
    requires Passed(read, c, c1, d) && Passed(read, c1, c2, e)
    ensures Passed(read, c, c2, d + e)
  {
    var p, q := c.addrs[..|d|], c1.addrs[..|e|];
    assert c.addrs[..|d + e|] == p + q;
    if read {
      StoreKeys(c.mem, p, d);
      StoreAppend(c.mem, p, q, d, e);
      PresentBoth(p, q, c.mem);
    } else {
      PresentBoth(p, q, c.mem);
      FetchBoth(c.mem, p, q);
    }
  }

  /** The bytes of a transfer through a kernel buffer. */
  ghost function DataOf(read: bool, x: Xfer, at: nat, m: nat): (d: seq<bv8>)
    requires m <= |x.addrs| && at + m <= |x.buf| && Present(x.addrs[..m], x.mem)
    ensures |d| == m
  {
    if read then x.buf[at..at + m] else Fetch(x.mem, x.addrs[..m])
  }

  lemma MovedPassed(read: bool, x: Xfer, x': Xfer, at: nat, m: nat, offset: nat, resid: nat)
    requires Moved(read, x, x', at, m) && m <= resid <= |x.addrs|
    ensures Passed(read, Cursor(x.addrs, x.mem, offset, resid), Cursor(x'.addrs, x'.mem, offset + m, resid - m),
                   DataOf(read, x, at, m))
  {
  }

  datatype IoResult = Complete | Full | FileTooBig | BadAddress

  /** What transfers do to the files: reading changes nothing; writing only maps blocks of this file that had none. */
  ghost predicate Grown(fs: Fs, fs': Fs, ino: nat, read: bool) {
    && SameMeta(fs, fs', ino) && (read ==> fs' == fs)
    && forall i, j :: i != ino || MapAt(fs, i, j) != 0 ==> MapAt(fs', i, j) == MapAt(fs, i, j)
  }

  lemma MappedGrown(fs: Fs, fs': Fs, ino: nat, k: nat, read: bool, r: Result)
    requires SameMeta(fs, fs', ino) && Mapped(fs, fs', ino, k, !read, r)
    ensures Grown(fs, fs', ino, read)
  {
  }

  lemma GrownTwice(fs: Fs, fs1: Fs, fs2: Fs, ino: nat, read: bool)
    requires Grown(fs, fs1, ino, read) && Grown(fs1, fs2, ino, read)
    ensures Grown(fs, fs2, ino, read)
  {
    forall i, j | i != ino || MapAt(fs, i, j) != 0 ensures MapAt(fs2, i, j) == MapAt(fs, i, j) {
      assert MapAt(fs1, i, j) == MapAt(fs, i, j);
    }
  }

  /** The file has that block there, and its sector was asked for, at an offset that sfs_blockio computes in 32 bits;
      only reading meets a hole, and gets zeros. */
  ghost predicate Placed(p: Piece, fs: Fs, ino: nat, read: bool) {
    && FileBlock(p.pos) <= HIGHBLOCK && p.block == MapAt(fs, ino, FileBlock(p.pos))
    && p.sector == (if p.whole then DeviceOffset(p.block) else p.block * BLOCKSIZE) / BLOCKSIZE
    && (p.block == 0 ==> read && p.data == ZeroBytes(|p.data|))
  }

  /** The byte offset of a block on the device, as sfs_blockio computes it. */
  function DeviceOffset(block: nat): nat { block * BLOCKSIZE % W32 }

  /** The piece was moved at the block that the file has there. */
  predicate InPlace(p: Piece) { p.sector == p.block }

  ghost function C(u: Uio): Cursor
    reads u
  {
    Cursor(Addrs(u.iov), u.mem, u.offset, u.resid)
  }

  /** sfs_partialio, as far as the amount moved: the contents of the block are arbitrary. */
  method PartialIo(fs: SfsFs, ino: nat, u: Uio, skip: nat, len: nat) returns (r: IoResult, ghost p: Piece)
    requires fs.Valid() && fs.InMemory(ino) && u.Valid() && skip + len <= BLOCKSIZE && len <= u.resid
    modifies fs, fs.freemap.v, u
    ensures fs.Valid() && Grown(old(fs.F()), fs.F(), ino, u.read)
    ensures u.Valid() && p.pos == old(u.offset) && Passed(u.read, old(C(u)), C(u), p.data)
    ensures |p.data| <= len && (r.Complete? ==> |p.data| == len)
    ensures r.Complete? || p.data != [] ==> Placed(p, fs.F(), ino, u.read)
    ensures r.FileTooBig? <==> FileBlock(old(u.offset)) > HIGHBLOCK
    ensures r.Full? ==> forall b: nat :: b < fs.nblocks ==> b in fs.freemap.Marked()
  {
    hide Owned, Shaped, Moved, Present, Passed, Amount, Addrs;
    var fileblock := FileBlock(u.offset);
    p := Piece(u.offset, [], 0, 0, false);
    NothingPassed(u.read, C(u));
    ghost var f := fs.F();
    var b := fs.Bmap(ino, fileblock, !u.read);
    MappedGrown(f, fs.F(), ino, fileblock, u.read, b);
    if b.NoSpace? {
      return Full, p;
    }
    if b.TooBig? {
      return FileTooBig, p;
    }
    var iobuf: array<bv8>;
    if b.block == 0 {
      assert u.read;
      iobuf := new bv8[BLOCKSIZE](_ => 0);
    } else {
      iobuf := new bv8[BLOCKSIZE];
    }
    ghost var data, diskoff := [], b.block * BLOCKSIZE;
    r, data := Through(u, iobuf, skip, len);
    p := Piece(p.pos, data, b.block, diskoff / BLOCKSIZE, false);
    if b.block == 0 {
      assert p.data == ZeroBytes(|p.data|);
    }
  }

  /** A call of uiomove that stays within the residue. */
  method Through(u: Uio, buf: array<bv8>, at: nat, n: nat) returns (r: IoResult, ghost data: seq<bv8>)
    requires u.Valid() && n <= u.resid && at + n <= buf.Length
    modifies u, buf
    ensures u.Valid() && Passed(u.read, old(C(u)), C(u), data)
    ensures r.Complete? || r.BadAddress?
    ensures |data| <= n && (r.Complete? ==> |data| == n)
    ensures u.read ==> data == old(buf[at..at + |data|])
  {
    hide Moved, Present, Passed, Amount, Addrs, Less, AtBoundary, Ended;
    ghost var x := u.X(buf);
    AmountWithin(u.iov, n, u.resid);
    NoBuffers(u.iov);
    var o := u.Uiomove(buf, at, n);
    EndFacts(o, x.addrs, x.mem, n, old(u.resid), n, u.offset - old(u.offset));
    ghost var m := u.offset - old(u.offset);
    LessThan(old(u.resid), m);
    AllPresent(u.read, x, u.X(buf), at, m);
    MovedPassed(u.read, x, u.X(buf), at, m, old(u.offset), old(u.resid));
    data := DataOf(u.read, x, at, m);
    r := if o.Fault? then BadAddress else Complete;
  }

  lemma NothingPassed(read: bool, c: Cursor)
    requires c.resid <= |c.addrs|
    ensures Passed(read, c, c, [])
  {
    assert Store(c.mem, [], []) == c.mem;
  }

  /** sfs_blockio: the offset and the residue are set aside while the device sees its own. */
  method BlockIo(fs: SfsFs, ino: nat, u: Uio) returns (r: IoResult, ghost p: Piece)
    requires fs.Valid() && fs.InMemory(ino) && u.Valid() && BLOCKSIZE <= u.resid
    modifies fs, fs.freemap.v, u
    ensures fs.Valid() && Grown(old(fs.F()), fs.F(), ino, u.read)
    ensures u.Valid() && p.pos == old(u.offset) && Passed(u.read, old(C(u)), C(u), p.data)
    ensures |p.data| <= BLOCKSIZE && (r.Complete? ==> |p.data| == BLOCKSIZE)
    ensures r.Complete? || p.data != [] ==> Placed(p, fs.F(), ino, u.read)
    ensures r.FileTooBig? <==> FileBlock(old(u.offset)) > HIGHBLOCK
    ensures r.Full? ==> forall b: nat :: b < fs.nblocks ==> b in fs.freemap.Marked()
  {
    hide Owned, Shaped, Passed, Addrs;
    var fileblock := FileBlock(u.offset);
    p := Piece(u.offset, [], 0, 0, false);
    NothingPassed(u.read, C(u));
    ghost var f := fs.F();
    var b := fs.Bmap(ino, fileblock, !u.read);
    MappedGrown(f, fs.F(), ino, fileblock, u.read, b);
    if b.NoSpace? {
      return Full, p;
    }
    if b.TooBig? {
      return FileTooBig, p;
    }
    ghost var data, sector := [], 0;
    if b.block == 0 {
      r, data := HoleIo(u);
    } else {
      r, data, sector := RawIo(u, b.block);
    }
    p := Piece(p.pos, data, b.block, sector, true);
  }

  /** A block that is not there reads as zeros. */
  method HoleIo(u: Uio) returns (r: IoResult, ghost data: seq<bv8>)
    requires u.Valid() && BLOCKSIZE <= u.resid && u.read
    modifies u
    ensures u.Valid() && Passed(true, old(C(u)), C(u), data) && data == ZeroBytes(|data|)
    ensures |data| <= BLOCKSIZE && (r.Complete? ==> |data| == BLOCKSIZE) && (r.Complete? || r.BadAddress?)
  {
    hide Present, Passed, Addrs, Store, ZerosMoved, ZerosAmount, Less, Ended;
    NoBuffers(u.iov);
    ZerosWithin(u.iov, BLOCKSIZE, u.resid);
    var o := u.Uiomovezeros(BLOCKSIZE);
    EndFacts(o, old(Addrs(u.iov)), old(u.mem), BLOCKSIZE, old(u.resid), BLOCKSIZE, u.offset - old(u.offset));
    data := ZeroBytes(u.offset - old(u.offset));
    LessThan(old(u.resid), |data|);
    ZerosPassed(old(C(u)), C(u), |data|);
    r := if o.Fault? then BadAddress else Complete;
  }

  /** The device transfers a block, at its own offset and with a residue of one block. That offset is computed in 32
      bits, so the sector is the right one exactly on the first 2^23 blocks. */
  method RawIo(u: Uio, diskblock: nat) returns (r: IoResult, ghost data: seq<bv8>, ghost sector: nat)
    requires u.Valid() && BLOCKSIZE <= u.resid
    modifies u
    ensures u.Valid() && Passed(u.read, old(C(u)), C(u), data)
    ensures |data| <= BLOCKSIZE && (r.Complete? ==> |data| == BLOCKSIZE) && (r.Complete? || r.BadAddress?)
    ensures sector == DeviceOffset(diskblock) / BLOCKSIZE && (sector == diskblock <==> diskblock < W32 / BLOCKSIZE)
  {
    hide Passed, Addrs;
    DeviceSector(diskblock);
    var saveoff, diskoff := u.offset, DeviceOffset(diskblock);
    u.offset := diskoff;
    var saveres, diskres := u.resid, BLOCKSIZE;
    u.resid := diskres;
    sector := u.offset / BLOCKSIZE;
    var buf := new bv8[BLOCKSIZE];
    ghost var d := C(u);
    r, data := Through(u, buf, 0, BLOCKSIZE);
    SetAside(u.read, d, C(u), data, saveoff, saveres);
    u.offset := (u.offset - diskoff) + saveoff;
    u.resid := (u.resid - diskres) + saveres;
  }

  lemma DeviceSector(b: nat)
    ensures DeviceOffset(b) / BLOCKSIZE == b <==> b < W32 / BLOCKSIZE
    ensures DeviceOffset(b) % BLOCKSIZE == 0
  {
  }

  lemma ZerosPassed(c: Cursor, c': Cursor, m: nat)
    requires ZerosMoved(c.addrs, c'.addrs, c.mem, c'.mem, m) && m <= c.resid <= |c.addrs|
    requires c'.offset == c.offset + m && c'.resid == c.resid - m
    ensures Passed(true, c, c', ZeroBytes(m))
  {
  }

  /** The same transfer, seen with the saved offset and residue. */
  lemma SetAside(read: bool, c: Cursor, c': Cursor, data: seq<bv8>, offset: nat, resid: nat)
    requires Passed(read, c, c', data) && c.resid <= resid <= |c.addrs|
    ensures c'.offset >= c.offset && c'.resid <= c.resid
    ensures Passed(read, c.(offset := offset, resid := resid),
                   c'.(offset := c'.offset - c.offset + offset, resid := c'.resid - c.resid + resid), data)
    ensures |c'.addrs| == |c.addrs| - |data| && |data| == c.resid - c'.resid
  {
  }

  // ---------------------------------------------------------------- a whole request

  /** The pieces follow each other from start to end, and none crosses into another block: all but the first
      begin with a block. */
  ghost predicate Tiles(log: seq<Piece>, start: nat, end: nat) {
    if log == [] then start == end
    else
      var k := |log| - 1;
      var p := log[k];
      && p.pos + |p.data| == end && p.pos % BLOCKSIZE + |p.data| <= BLOCKSIZE && Tiles(log[..k], start, p.pos)
      && (k > 0 ==> p.pos % BLOCKSIZE == 0 && log[k - 1].data != [])
  }

  ghost function Bytes(log: seq<Piece>): seq<bv8> {
    if log == [] then [] else Bytes(log[..|log| - 1]) + log[|log| - 1].data
  }

  ghost predicate AllPlaced(log: seq<Piece>, fs: Fs, ino: nat, read: bool) {
    forall i :: 0 <= i < |log| ==> Placed(log[i], fs, ino, read)
  }

  /** Every byte of the range is in exactly one piece. */
  lemma {:induction false} TilesCover(log: seq<Piece>, start: nat, end: nat, b: nat)
    requires Tiles(log, start, end)
    ensures start <= end
    ensures start <= b < end <==> exists i :: 0 <= i < |log| && Holds(log[i], b)
    ensures forall i, j :: 0 <= i < j < |log| ==> !(Holds(log[i], b) && Holds(log[j], b))
  {
    if log != [] {
      var k := |log| - 1;
      TilesCover(log[..k], start, log[k].pos, b);
      assert forall i :: 0 <= i < k ==> log[..k][i] == log[i];
      if Holds(log[k], b) {
        forall i | 0 <= i < k ensures !Holds(log[i], b) {
          assert !Holds(log[..k][i], b);
        }
      }
      if exists i :: 0 <= i < k && Holds(log[i], b) {
        var i :| 0 <= i < k && Holds(log[i], b);
        assert Holds(log[..k][i], b);
      }
    }
  }

  predicate Holds(p: Piece, b: nat) { p.pos <= b < p.pos + |p.data| }

  /** What the pieces moved so far have done. */
  ghost predicate Progress(log: seq<Piece>, read: bool, c0: Cursor, c: Cursor, f0: Fs, f: Fs, ino: nat) {
    && Tiles(log, c0.offset, c.offset) && Passed(read, c0, c, Bytes(log))
    && AllPlaced(log, f, ino, read) && Grown(f0, f, ino, read)
  }

  /** The next piece can follow: it begins a block, unless it is the first. */
  predicate AtBlock(log: seq<Piece>, pos: nat) {
    log == [] || (pos % BLOCKSIZE == 0 && log[|log| - 1].data != [])
  }

  /** A piece was moved, or the transfer of it failed; it is recorded unless nothing of it was moved. */
  function Recorded(log: seq<Piece>, p: Piece, done: bool): seq<Piece> {
    if done || p.data != [] then log + [p] else log
  }

  lemma Extend(log: seq<Piece>, p: Piece, done: bool, read: bool, c0: Cursor, c: Cursor, c': Cursor, f0: Fs,
               f: Fs, f': Fs, ino: nat)
    requires Progress(log, read, c0, c, f0, f, ino) && AtBlock(log, c.offset)
    requires Passed(read, c, c', p.data) && Grown(f, f', ino, read) && p.pos == c.offset
    requires p.pos % BLOCKSIZE + |p.data| <= BLOCKSIZE && (done || p.data != [] ==> Placed(p, f', ino, read))
    ensures Progress(Recorded(log, p, done), read, c0, c', f0, f', ino)
  {
    hide Grown, Placed, Passed;
    GrownTwice(f0, f, f', ino, read);
    StillPlaced(log, f, f', ino, read);
    PassedTwice(read, c0, c, c', Bytes(log), p.data);
    Amounts(read, c, c', p.data);
    if done || p.data != [] {
      assert (log + [p])[..|log|] == log;
    } else {
      assert Bytes(log) + p.data == Bytes(log);
    }
  }

  lemma StillPlaced(log: seq<Piece>, f: Fs, f': Fs, ino: nat, read: bool)
    requires AllPlaced(log, f, ino, read) && Grown(f, f', ino, read)
    ensures AllPlaced(log, f', ino, read)
  {
    forall i | 0 <= i < |log| ensures Placed(log[i], f', ino, read) {
      assert Placed(log[i], f, ino, read);
    }
  }

  lemma Amounts(read: bool, c: Cursor, c': Cursor, data: seq<bv8>)
    requires Passed(read, c, c', data)
    ensures c'.offset == c.offset + |data| && c'.resid == c.resid - |data|
  {
  }

  /** A partial block in the course of a request. */
  method MovePartial(fs: SfsFs, ino: nat, u: Uio, skip: nat, len: nat, ghost log0: seq<Piece>,
                     ghost c0: Cursor, ghost f0: Fs)
    returns (r: IoResult, ghost log: seq<Piece>)
    requires fs.Valid() && fs.InMemory(ino) && u.Valid() && skip == u.offset % BLOCKSIZE
    requires skip + len <= BLOCKSIZE && len <= u.resid
    requires Progress(log0, u.read, c0, C(u), f0, fs.F(), ino) && AtBlock(log0, u.offset)
    modifies fs, fs.freemap.v, u
    ensures fs.Valid() && u.Valid() && fs.InMemory(ino)
    ensures Progress(log, u.read, c0, C(u), f0, fs.F(), ino)
    ensures r.Complete? ==> u.offset == old(u.offset) + len && u.resid == old(u.resid) - len
    ensures r.Complete? ==> log != [] && (len > 0 ==> log[|log| - 1].data != [])
  {
    hide Owned, Shaped, Passed, Addrs, Progress, Placed;
    ghost var p;
    r, p := PartialIo(fs, ino, u, skip, len);
    Amounts(u.read, old(C(u)), C(u), p.data);
    Extend(log0, p, r.Complete?, u.read, c0, old(C(u)), C(u), f0, old(fs.F()), fs.F(), ino);
    log := Recorded(log0, p, r.Complete?);
  }

  /** A whole block in the course of a request. */
  method MoveBlock(fs: SfsFs, ino: nat, u: Uio, ghost log0: seq<Piece>, ghost c0: Cursor, ghost f0: Fs)
    returns (r: IoResult, ghost log: seq<Piece>)
    requires fs.Valid() && fs.InMemory(ino) && u.Valid() && u.offset % BLOCKSIZE == 0 && BLOCKSIZE <= u.resid
    requires Progress(log0, u.read, c0, C(u), f0, fs.F(), ino) && AtBlock(log0, u.offset)
    modifies fs, fs.freemap.v, u
    ensures fs.Valid() && u.Valid() && fs.InMemory(ino)
    ensures Progress(log, u.read, c0, C(u), f0, fs.F(), ino)
    ensures r.Complete? ==> u.offset == old(u.offset) + BLOCKSIZE && u.resid == old(u.resid) - BLOCKSIZE
    ensures r.Complete? ==> log != [] && log[|log| - 1].data != []
  {
    hide Owned, Shaped, Passed, Addrs, Progress, Placed;
    ghost var p;
    r, p := BlockIo(fs, ino, u);
    Amounts(u.read, old(C(u)), C(u), p.data);
    Extend(log0, p, r.Complete?, u.read, c0, old(C(u)), C(u), f0, old(fs.F()), fs.F(), ino);
    log := Recorded(log0, p, r.Complete?);
  }

  /** The part of sfs_io that cuts the range into pieces. */
  method Transfer(fs: SfsFs, ino: nat, u: Uio) returns (r: IoResult, ghost log: seq<Piece>)
    requires fs.Valid() && fs.InMemory(ino) && u.Valid()
    modifies fs, fs.freemap.v, u
    ensures fs.Valid() && u.Valid()
    ensures Progress(log, u.read, old(C(u)), C(u), old(fs.F()), fs.F(), ino)
    ensures r.Complete? ==> u.resid == 0
  {
    hide Owned, Shaped, Passed, Addrs, Progress, Placed;
    ghost var c0, f0 := C(u), fs.F();
    log := [];
    Started(u.read, c0, f0, ino);
    var blkoff := u.offset % BLOCKSIZE;
    if blkoff != 0 {
      var len := BLOCKSIZE - blkoff;
      if len > u.resid {
        len := u.resid;
      }
      r, log := MovePartial(fs, ino, u, blkoff, len, log, c0, f0);
      if !r.Complete? {
        return;
      }
    }
    if u.resid == 0 {
      r := Complete;
      return;
    }
    assert u.offset % BLOCKSIZE == 0;
    var nblocks := u.resid / BLOCKSIZE;
    ghost var total := u.resid;
    for i := 0 to nblocks
      invariant fs.Valid() && fs.InMemory(ino) && u.Valid()
      invariant Progress(log, u.read, c0, C(u), f0, fs.F(), ino)
      invariant u.offset % BLOCKSIZE == 0 && AtBlock(log, u.offset) && u.resid == total - i * BLOCKSIZE
    {
      r, log := MoveBlock(fs, ino, u, log, c0, f0);
      if !r.Complete? {
        return;
      }
    }
    assert u.resid < BLOCKSIZE;
    r := Complete;
    if u.resid > 0 {
      r, log := MovePartial(fs, ino, u, 0, u.resid, log, c0, f0);
    }
  }

  lemma Started(read: bool, c: Cursor, f: Fs, ino: nat)
    requires c.resid <= |c.addrs| && ino in f.vnodes
    ensures Progress([], read, c, c, f, f, ino)
  {
    NothingPassed(read, c);
    assert f.vnodes == f.vnodes[ino := f.vnodes[ino]];
  }

  /** How many bytes a request moves when nothing fails: reading stops at the end of the file. */
  function Share(read: bool, size: int, offset: nat, resid: nat): nat {
    if !read || size >= offset + resid then resid else if offset >= size then 0 else size - offset
  }

  /** What a request does, up to the size of the file: c is the uio before it. */
  ghost predicate Served(log: seq<Piece>, read: bool, c: Cursor, c': Cursor, f: Fs, f': Fs, ino: nat, r: IoResult) {
    && Progress(log, read, c, c', f, f', ino) && ino in f.vnodes
    && (r.Complete? ==> c'.offset == c.offset + Share(read, f.vnodes[ino].size, c.offset, c.resid))
  }

  /** The file length, kept in 32 bits. */
  method SetSize(fs: SfsFs, ino: nat, size: nat)
    requires fs.Valid() && fs.InMemory(ino)
    modifies fs`vnodes
    ensures fs.Valid() && fs.vnodes == old(fs.vnodes)[ino := old(fs.vnodes[ino]).(size := size % W32, dirty := true)]
    ensures forall i, j :: MapAt(fs.F(), i, j) == MapAt(old(fs.F()), i, j)
  {
    hide Owned;
    ghost var f := fs.F();
    fs.vnodes := fs.vnodes[ino := fs.vnodes[ino].(size := size % W32, dirty := true)];
    SizeOnly(f, fs.F(), ino);
    SameSlots(f, fs.F(), fs.freemap.Marked(), fs.reserved, fs.nblocks);
  }

  /** sfs_io. */
  method Io(fs: SfsFs, ino: nat, u: Uio) returns (r: IoResult, ghost log: seq<Piece>, ghost mapped: Fs)
    requires fs.Valid() && fs.InMemory(ino) && u.Valid() && 0 <= fs.vnodes[ino].size < W32
    modifies fs, fs.freemap.v, u
    ensures fs.Valid() && u.Valid() && u.offset + u.resid == old(u.offset + u.resid)
    ensures Served(log, u.read, old(C(u)), C(u), old(fs.F()), mapped, ino, r)
    ensures fs.InMemory(ino) && (forall i, j :: MapAt(fs.F(), i, j) == MapAt(mapped, i, j))
    ensures fs.vnodes[ino].size
            == if !u.read && u.offset > old(fs.vnodes[ino].size) then u.offset % W32 else old(fs.vnodes[ino].size)
    ensures !u.read ==> (fs.vnodes[ino].size == Most(old(fs.vnodes[ino].size), u.offset) <==> u.offset < W32)
    ensures forall i :: 0 <= i < |log| ==>
              (InPlace(log[i]) <==> !log[i].whole || log[i].block == 0 || log[i].block < W32 / BLOCKSIZE)
    ensures fs.nblocks <= W32 / BLOCKSIZE ==> forall i :: 0 <= i < |log| ==>
              InPlace(log[i]) && (!u.read ==> OwnBlock(log[i], mapped, ino, fs.reserved, fs.nblocks))
  {
    hide Owned, Shaped, Passed, Addrs, Progress, Placed, OwnBlock;
    ghost var c0, f0 := C(u), fs.F();
    mapped := f0;
    log := [];
    var extraresid := 0;
    if u.read {
      var size, endpos := fs.vnodes[ino].size, u.offset + u.resid;
      if u.offset >= size {
        Started(u.read, c0, f0, ino);
        return Complete, log, mapped;
      }
      if endpos > size {
        extraresid := endpos - size;
        assert u.resid > extraresid;
        u.resid := u.resid - extraresid;
      }
    }
    ghost var c := C(u);
    r, log := Transfer(fs, ino, u);
    ProgressAmounts(log, u.read, c, C(u), f0, fs.F(), ino, c0.resid);
    mapped := fs.F();
    Asked(log, u.read, c, C(u), f0, mapped, ino);
    if fs.nblocks <= W32 / BLOCKSIZE {
      SmallVolume(log, u.read, c, C(u), f0, mapped, ino, fs.freemap.Marked(), fs.reserved, fs.nblocks);
    }
    SizeExact(fs.vnodes[ino].size, u.offset);
    if !u.read && u.offset > fs.vnodes[ino].size {
      SetSize(fs, ino, u.offset);
    }
    u.resid := u.resid + extraresid;
  }

  lemma ProgressAmounts(log: seq<Piece>, read: bool, c0: Cursor, c: Cursor, f0: Fs, f: Fs, ino: nat, resid: nat)
    requires Progress(log, read, c0, c, f0, f, ino) && c0.resid <= resid <= |c0.addrs|
    ensures c.offset + c.resid == c0.offset + c0.resid && c.offset >= c0.offset && SameMeta(f0, f, ino)
    ensures Progress(log, read, c0.(resid := resid), c.(resid := c.resid + (resid - c0.resid)), f0, f, ino)
    ensures c.resid + (resid - c0.resid) <= |c.addrs|
  {
    SetAside(read, c0, c, Bytes(log), c0.offset, resid);
  }

  // ---------------------------------------------------------------- where the bytes go

  /** A piece is moved at the block that the file has there exactly if it is partial, a hole, or one of the first
      2^23 blocks of the volume. */
  lemma PlaceExact(p: Piece, fs: Fs, ino: nat, read: bool)
    requires Placed(p, fs, ino, read)
    ensures InPlace(p) <==> !p.whole || p.block == 0 || p.block < W32 / BLOCKSIZE
  {
    DeviceSector(p.block);
  }

  lemma Asked(log: seq<Piece>, read: bool, c0: Cursor, c: Cursor, f0: Fs, f: Fs, ino: nat)
    requires Progress(log, read, c0, c, f0, f, ino)
    ensures forall i :: 0 <= i < |log| ==>
              (InPlace(log[i]) <==> !log[i].whole || log[i].block == 0 || log[i].block < W32 / BLOCKSIZE)
  {
    forall i | 0 <= i < |log|
      ensures InPlace(log[i]) <==> !log[i].whole || log[i].block == 0 || log[i].block < W32 / BLOCKSIZE
    {
      PlaceExact(log[i], f, ino, read);
    }
  }

  /** On a volume of at most 2^23 blocks every piece is in its place, and is written to no block but the file's own. */
  lemma SmallVolume(log: seq<Piece>, read: bool, c0: Cursor, c: Cursor, f0: Fs, f: Fs, ino: nat,
                    marked: set<nat>, reserved: set<nat>, nblocks: nat)
    requires Progress(log, read, c0, c, f0, f, ino) && Owned(f, marked, reserved, nblocks) && nblocks <= W32 / BLOCKSIZE
    ensures forall i :: 0 <= i < |log| ==> InPlace(log[i]) && (!read ==> OwnBlock(log[i], f, ino, reserved, nblocks))
  {
    hide Owned, OwnBlock;
    forall i | 0 <= i < |log| ensures InPlace(log[i]) && (!read ==> OwnBlock(log[i], f, ino, reserved, nblocks)) {
      PlaceExact(log[i], f, ino, read);
      UsedBlock(f, SlotOf(ino, FileBlock(log[i].pos)), marked, reserved, nblocks);
      if !read { WritesOwn(log[i], f, ino, marked, reserved, nblocks); }
    }
  }

  /** The piece is at a block of this file and of nothing else: no other file block, no inode, no indirect block, no
      reserved block. */
  ghost predicate OwnBlock(p: Piece, f: Fs, ino: nat, reserved: set<nat>, nblocks: nat) {
    var slot := SlotOf(ino, FileBlock(p.pos));
    && p.sector == BlockAt(f, slot) != 0 && p.sector < nblocks && p.sector !in reserved
    && forall t :: t != slot ==> BlockAt(f, t) != p.sector
  }

  lemma WritesOwn(p: Piece, f: Fs, ino: nat, marked: set<nat>, reserved: set<nat>, nblocks: nat)
    requires Placed(p, f, ino, false) && InPlace(p) && Owned(f, marked, reserved, nblocks)
    ensures OwnBlock(p, f, ino, reserved, nblocks)
  {
    assert BlockAt(f, SlotOf(ino, FileBlock(p.pos))) != 0;
  }

  /** A whole block from disk block 2^23 on is moved 2^23 blocks or more too early: block 2^23 itself at sector 0, where
      the superblock is. */
  lemma WrongSector(p: Piece, f: Fs, ino: nat, read: bool)
    requires Placed(p, f, ino, read) && p.whole && p.block >= 0x80_0000
    ensures p.sector == p.block % 0x80_0000 && (p.block == 0x80_0000 ==> p.sector == 0)
  {
    var q := p.block / 0x80_0000;
    assert p.block * BLOCKSIZE == p.block % 0x80_0000 * BLOCKSIZE + q * W32;
    ModUnique(p.block % 0x80_0000 * BLOCKSIZE, q, W32);
  }

  /** The pieces lie in consecutive blocks, one piece in each. */
  lemma {:induction false} BlocksInOrder(log: seq<Piece>, start: nat, end: nat, i: nat)
    requires Tiles(log, start, end) && i < |log|
    ensures log[i].pos / BLOCKSIZE == start / BLOCKSIZE + i
    decreases |log|
  {
    var k := |log| - 1;
    if i < k {
      BlocksInOrder(log[..k], start, log[k].pos, i);
    } else if k > 0 {
      var q := log[..k][k - 1];
      BlocksInOrder(log[..k], start, log[k].pos, k - 1);
      NextBlock(q.pos, |q.data|);
    } else {
      assert log[..0] == [];
    }
  }

  lemma NextBlock(pos: nat, len: nat)
    requires 0 < len && pos % BLOCKSIZE + len <= BLOCKSIZE && (pos + len) % BLOCKSIZE == 0
    ensures (pos + len) / BLOCKSIZE == pos / BLOCKSIZE + 1
  {
  }

  /** A request that begins below block 2^32 puts every piece where it belongs. */
  lemma {:induction false} TrueBlocks(log: seq<Piece>, start: nat, end: nat, f: Fs, ino: nat, read: bool, i: nat)
    requires Tiles(log, start, end) && AllPlaced(log, f, ino, read) && start / BLOCKSIZE < W32 && i < |log|
    ensures FileBlock(log[i].pos) == log[i].pos / BLOCKSIZE <= HIGHBLOCK
  {
    hide Tiles, AllPlaced, FileBlock, Placed;
    BlocksInOrder(log, start, end, i);
    if i > 0 {
      TrueBlocks(log, start, end, f, ino, read, i - 1);
      BlocksInOrder(log, start, end, i - 1);
    }
    SmallBlock(log[i].pos);
    PlacedBlock(log, f, ino, read, i);
  }

  lemma SmallBlock(pos: nat)
    requires pos / BLOCKSIZE < W32
    ensures FileBlock(pos) == pos / BLOCKSIZE
  {
  }

  lemma PlacedBlock(log: seq<Piece>, f: Fs, ino: nat, read: bool, i: nat)
    requires AllPlaced(log, f, ino, read) && i < |log|
    ensures FileBlock(log[i].pos) <= HIGHBLOCK
  {
    assert Placed(log[i], f, ino, read);
  }

  /** Such a request ends within what a file can hold, so the size of the file is right after a write. */
  lemma EndFits(log: seq<Piece>, start: nat, end: nat, f: Fs, ino: nat, read: bool)
    requires Tiles(log, start, end) && AllPlaced(log, f, ino, read) && start / BLOCKSIZE < W32 && log != []
    ensures end <= (HIGHBLOCK + 1) * BLOCKSIZE < W32
  {
    TrueBlocks(log, start, end, f, ino, read, |log| - 1);
  }

  function Most(a: int, b: int): int { if b > a then b else a }

  /** Beyond that, block numbers wrap and a request is served from another part of the file. */
  lemma WrongBlock(pos: nat)
    requires pos / BLOCKSIZE >= W32
    ensures FileBlock(pos) != pos / BLOCKSIZE && FileBlock(pos) == FileBlock(pos - W32 * BLOCKSIZE)
  {
  }

  /** A write leaves the size at the larger of what it was and where the write ended, exactly when that end
      fits in 32 bits. */
  lemma SizeExact(size: nat, end: nat)
    requires size < W32
    ensures (if end > size then end % W32 else size) == Most(size, end) <==> end < W32
  {
  }
}
