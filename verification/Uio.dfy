/**
 Moving data between a kernel buffer and the buffers of a uio (kern/lib/uio.c).
 */
module Uio {
  import opened Words

  type Memory = map<nat, bv8>

  datatype Iovec = Iovec(base: nat, len: nat)

  function Range(base: nat, len: nat): (r: seq<nat>)
    ensures |r| == len
  {
    seq(len, (i: nat) => base + i)
  }

  /** The addresses of the buffers, in the order in which bytes are moved. */
  function Addrs(iov: seq<Iovec>): seq<nat> {
    if iov == [] then [] else Range(iov[0].base, iov[0].len) + Addrs(iov[1..])
  }

  predicate Present(at: seq<nat>, mem: Memory) { forall i :: 0 <= i < |at| ==> at[i] in mem }

  /** Bytes written to memory one after the other. */
  function Store(mem: Memory, at: seq<nat>, data: seq<bv8>): Memory
    requires |at| == |data|
  {
    if at == [] then mem else var k := |at| - 1; Store(mem, at[..k], data[..k])[at[k] := data[k]]
  }

  function Fetch(mem: Memory, at: seq<nat>): (data: seq<bv8>)
    requires Present(at, mem)
    ensures |data| == |at|
  {
    seq(|at|, i requires 0 <= i < |at| => mem[at[i]])
  }

  /** The addresses still to be used, the memory, and the kernel buffer. */
  datatype Xfer = Xfer(addrs: seq<nat>, mem: Memory, buf: seq<bv8>)

  /** What a transfer of m bytes does, with the kernel buffer used from at on. */
  ghost predicate Moved(read: bool, x: Xfer, x': Xfer, at: nat, m: nat) {
    && m <= |x.addrs| && at + m <= |x.buf| && x'.addrs == x.addrs[m..] && Present(x.addrs[..m], x.mem)
    && if read then x'.mem == Store(x.mem, x.addrs[..m], x.buf[at..at + m]) && x'.buf == x.buf
       else x'.mem == x.mem && x'.buf == x.buf[..at] + Fetch(x.mem, x.addrs[..m]) + x.buf[at + m..]
  }

  lemma MovedNothing(read: bool, x: Xfer, at: nat)
    requires at <= |x.buf|
    ensures Moved(read, x, x, at, 0)
  {
    assert x.buf == x.buf[..at] + Fetch(x.mem, x.addrs[..0]) + x.buf[at..];
  }

  lemma {:induction false} StoreAppend(mem: Memory, p: seq<nat>, q: seq<nat>, x: seq<bv8>, y: seq<bv8>)
    requires |p| == |x| && |q| == |y|
    ensures Store(mem, p + q, x + y) == Store(Store(mem, p, x), q, y)
  {
    if q == [] {
      assert p + q == p && x + y == x;
    } else {
      var k := |q| - 1;
      assert (p + q)[..|p| + k] == p + q[..k] && (x + y)[..|x| + k] == x + y[..k];
      StoreAppend(mem, p, q[..k], x, y[..k]);
    }
  }

  lemma {:induction false} StoreKeys(mem: Memory, at: seq<nat>, data: seq<bv8>)
    requires |at| == |data| && Present(at, mem)
    ensures Store(mem, at, data).Keys == mem.Keys
  {
    if at != [] {
      StoreKeys(mem, at[..|at| - 1], data[..|at| - 1]);
      assert at[|at| - 1] in mem;
    }
  }

  /** Two transfers in a row are one transfer of both lengths. */
  lemma MovedTwice(read: bool, x: Xfer, x1: Xfer, x2: Xfer, at: nat, m: nat, k: nat)
    requires Moved(read, x, x1, at, m) && Moved(read, x1, x2, at + m, k)
    ensures Moved(read, x, x2, at, m + k)
  {
    hide Store, Fetch;
    assert x.addrs[..m + k] == x.addrs[..m] + x1.addrs[..k];
    if read {
      InTwice(x, x1, x2, at, m, k);
    } else {
      OutTwice(x, x1, x2, at, m, k);
    }
  }

  lemma InTwice(x: Xfer, x1: Xfer, x2: Xfer, at: nat, m: nat, k: nat)
    requires Moved(true, x, x1, at, m) && Moved(true, x1, x2, at + m, k)
    ensures Present(x.addrs[..m] + x1.addrs[..k], x.mem)
    ensures x2.mem == Store(x.mem, x.addrs[..m] + x1.addrs[..k], x.buf[at..at + (m + k)])
  {
    hide Store;
    var p, q, b := x.addrs[..m], x1.addrs[..k], x.buf;
    StoreKeys(x.mem, p, b[at..at + m]);
    StoreAppend(x.mem, p, q, b[at..at + m], b[at + m..at + m + k]);
    assert b[at..at + m] + b[at + m..at + m + k] == b[at..at + (m + k)];
    PresentBoth(p, q, x.mem);
  }

  lemma OutTwice(x: Xfer, x1: Xfer, x2: Xfer, at: nat, m: nat, k: nat)
    requires Moved(false, x, x1, at, m) && Moved(false, x1, x2, at + m, k)
    ensures Present(x.addrs[..m] + x1.addrs[..k], x.mem)
    ensures x2.buf == x.buf[..at] + Fetch(x.mem, x.addrs[..m] + x1.addrs[..k]) + x.buf[at + (m + k)..]
  {
    hide Fetch;
    var p, q, b := x.addrs[..m], x1.addrs[..k], x.buf;
    PresentBoth(p, q, x.mem);
    FetchBoth(x.mem, p, q);
    assert x1.buf[..at + m] == b[..at] + Fetch(x.mem, p);
    assert x1.buf[at + m + k..] == b[at + (m + k)..];
    assert x2.buf == b[..at] + (Fetch(x.mem, p) + Fetch(x.mem, q)) + b[at + (m + k)..];
  }

  lemma AllPresent(read: bool, x: Xfer, x1: Xfer, at: nat, m: nat)
    requires Moved(read, x, x1, at, m)
    ensures m <= |x.addrs| && Present(x.addrs[..m], x.mem)
  {
  }

  /** What faults after m bytes lies among the next size. */
  lemma FaultWithin(read: bool, x: Xfer, x1: Xfer, at: nat, m: nat, size: nat, want: nat)
    requires Moved(read, x, x1, at, m) && m + size <= want <= |x.addrs|
    requires size <= |x1.addrs| && !Present(x1.addrs[..size], x1.mem)
    ensures !Present(x.addrs[..want], x.mem)
  {
    if read { StoreKeys(x.mem, x.addrs[..m], x.buf[at..at + m]); }
    var i :| 0 <= i < size && x1.addrs[..size][i] !in x1.mem;
    assert x.addrs[..want][m + i] !in x.mem.Keys;
  }

  lemma PresentBoth(p: seq<nat>, q: seq<nat>, mem: Memory)
    requires Present(p, mem) && (forall i :: 0 <= i < |q| ==> q[i] in mem.Keys)
    ensures Present(p + q, mem)
  {
  }

  lemma FetchBoth(mem: Memory, p: seq<nat>, q: seq<nat>)
    requires Present(p, mem) && Present(q, mem) && Present(p + q, mem)
    ensures Fetch(mem, p + q) == Fetch(mem, p) + Fetch(mem, q)
  {
  }

  lemma RangeTail(base: nat, len: nat, size: nat)
    requires size <= len
    ensures Range(base, len)[..size] == Range(base, size) && Range(base + size, len - size) == Range(base, len)[size..]
  {
  }

  function Advanced(iov: seq<Iovec>, size: nat): (r: seq<Iovec>)
    requires iov != [] && size <= iov[0].len
    ensures r != [] && r[1..] == iov[1..] && r[0] == Iovec(iov[0].base + size, iov[0].len - size)
  {
    [Iovec(iov[0].base + size, iov[0].len - size)] + iov[1..]
  }

  lemma Cut<T>(r: seq<T>, rest: seq<T>, size: nat)
    requires size <= |r|
    ensures (r + rest)[..size] == r[..size] && (r + rest)[size..] == r[size..] + rest
  {
  }

  /** Advancing the first buffer drops its addresses from the front. */
  lemma Advance(iov: seq<Iovec>, size: nat)
    requires iov != [] && size <= iov[0].len
    ensures |Addrs(iov)| >= size && Addrs(iov)[..size] == Range(iov[0].base, size)
    ensures Addrs(Advanced(iov, size)) == Addrs(iov)[size..]
  {
    hide *;
    RangeTail(iov[0].base, iov[0].len, size);
    Cut(Range(iov[0].base, iov[0].len), Addrs(iov[1..]), size);
    AddrsCons(iov);
    AddrsCons(Advanced(iov, size));
  }

  lemma AddrsCons(iov: seq<Iovec>)
    requires iov != []
    ensures Addrs(iov) == Range(iov[0].base, iov[0].len) + Addrs(iov[1..])
  {
  }

  // ---------------------------------------------------------------- how much is moved

  /** uio_resid -= m, in 32 bits. */
  function Less(resid: nat, m: nat): (r: nat)
    ensures r < W32
  {
    (resid - m) % W32
  }

  lemma LessTwice(resid: nat, m: nat, k: nat)
    ensures Less(Less(resid, m), k) == Less(resid, m + k)
  {
  }

  lemma LessThan(resid: nat, m: nat)
    requires m <= resid < W32
    ensures Less(resid, m) == resid - m
  {
  }

  /** The first r bytes of the buffers end where some buffer ends. */
  predicate AtBoundary(iov: seq<Iovec>, r: nat) {
    r == 0 || (iov != [] && iov[0].len <= r && AtBoundary(iov[1..], r - iov[0].len))
  }

  lemma {:induction false} WholeIsBoundary(iov: seq<Iovec>)
    ensures AtBoundary(iov, |Addrs(iov)|)
  {
    if iov != [] { WholeIsBoundary(iov[1..]); }
  }

  /** How many bytes uiomove moves when nothing faults. A stretch is cut to n but not to the residue, so the
      loop sees a residue of 0 only at the end of a buffer; otherwise the residue wraps and n alone counts. */
  function Amount(iov: seq<Iovec>, n: nat, resid: nat): (m: nat)
    ensures m <= n && m <= |Addrs(iov)|
  {
    Bounded(|Addrs(iov)|, n, resid, AtBoundary(iov, resid))
  }

  /** At most all bytes; of these n, or only the residue if the loop gets to see it run out. */
  function Bounded(all: nat, n: nat, resid: nat, seen: bool): nat {
    Least(all, if n <= resid || !seen then n else resid)
  }

  lemma AmountDone(iov: seq<Iovec>, n: nat, resid: nat)
    requires n == 0 || resid == 0
    ensures Amount(iov, n, resid) == 0
  {
  }

  /** An empty buffer is passed over. */
  lemma AmountSkip(iov: seq<Iovec>, n: nat, resid: nat)
    requires iov != [] && iov[0].len == 0
    ensures Addrs(iov[1..]) == Addrs(iov) && Amount(iov[1..], n, resid) == Amount(iov, n, resid)
    ensures iov[1..] == [] ==> Amount(iov, n, resid) == 0
  {
    assert AtBoundary(iov, resid) == AtBoundary(iov[1..], resid);
  }

  lemma BoundaryStep(iov: seq<Iovec>, r: nat)
    requires iov != [] && 0 < iov[0].len <= r
    ensures AtBoundary(Advanced(iov, iov[0].len), r - iov[0].len) == AtBoundary(iov, r)
  {
    var next := Advanced(iov, iov[0].len);
    assert next[1..] == iov[1..];
    assert AtBoundary(next, r - iov[0].len) == AtBoundary(iov[1..], r - iov[0].len);
  }

  /** After m bytes the buffers can still serve the residue, and inside it they end where they did. */
  ghost predicate Follows(iov0: seq<Iovec>, resid0: nat, iov: seq<Iovec>, resid: nat, m: nat) {
    (iov == [] ==> resid == 0) && (m < resid0 ==> AtBoundary(iov, resid) == AtBoundary(iov0, resid0))
  }

  lemma FollowsStart(iov: seq<Iovec>, resid: nat)
    requires iov == [] ==> resid == 0
    ensures Follows(iov, resid, iov, resid, 0)
  {
  }

  lemma FollowsSome(iov0: seq<Iovec>, resid0: nat, iov: seq<Iovec>, resid: nat, m: nat)
    requires Follows(iov0, resid0, iov, resid, m)
    ensures iov == [] ==> resid == 0
  {
  }

  lemma FollowsSkip(iov0: seq<Iovec>, resid0: nat, iov: seq<Iovec>, resid: nat, m: nat)
    requires Follows(iov0, resid0, iov, resid, m) && iov != [] && iov[0].len == 0
    ensures iov[1..] != [] ==> Follows(iov0, resid0, iov[1..], resid, m)
  {
    assert AtBoundary(iov, resid) == AtBoundary(iov[1..], resid);
  }

  lemma FollowsStep(iov0: seq<Iovec>, resid0: nat, iov: seq<Iovec>, resid: nat, m: nat, size: nat)
    requires Follows(iov0, resid0, iov, resid, m) && resid0 < W32 && resid == Less(resid0, m)
    requires iov != [] && 0 < size <= iov[0].len
    ensures Follows(iov0, resid0, Advanced(iov, size), Less(resid, size), m + size)
  {
    if m + size < resid0 {
      LessThan(resid0, m);
      LessThan(resid, size);
      BoundaryInside(iov, resid, size);
    }
  }

  lemma BoundaryInside(iov: seq<Iovec>, r: nat, size: nat)
    requires iov != [] && 0 < size <= iov[0].len && size < r
    ensures AtBoundary(Advanced(iov, size), r - size) == AtBoundary(iov, r)
  {
    assert Advanced(iov, size)[1..] == iov[1..];
    assert r - size - (iov[0].len - size) == r - iov[0].len;
  }

  lemma AmountStep(iov: seq<Iovec>, n: nat, resid: nat, size: nat)
    requires iov != [] && iov[0].len > 0 && 0 < n < W32 && 0 < resid < W32
    requires size == if iov[0].len < n then iov[0].len else n
    ensures size + Amount(Advanced(iov, size), n - size, Less(resid, size)) == Amount(iov, n, resid)
  {
    Advance(iov, size);
    if size <= resid {
      LessThan(resid, size);
      if 0 < size < n { BoundaryStep(iov, resid); }
    } else {
      assert Less(resid, size) == resid - size + W32;
      assert size == iov[0].len ==> !AtBoundary(iov, resid);
    }
  }

  /** With a residue that the buffers can hold, they run out only after an overrun. */
  lemma RanOut(iov: seq<Iovec>, n: nat, resid: nat)
    requires resid < W32 && resid <= |Addrs(iov)| && Amount(iov, n, resid) < n && Less(resid, Amount(iov, n, resid)) > 0
    ensures |Addrs(iov)| < n && !AtBoundary(iov, resid)
  {
    LessThan(resid, resid);
  }

  /** uiomove moves min(n, resid) bytes exactly when it is not asked for more than the residue, or the residue
      ends where a buffer ends. */
  lemma AmountExact(iov: seq<Iovec>, n: nat, resid: nat)
    requires resid <= |Addrs(iov)|
    ensures Amount(iov, n, resid) == (if n < resid then n else resid) <==> n <= resid || AtBoundary(iov, resid)
  {
    WholeIsBoundary(iov);
  }

  /** Four bytes are moved through a uio with a residue of two. */
  lemma Overrun()
    ensures Amount([Iovec(0, 8)], 4, 2) == 4
  {
    assert Addrs([Iovec(0, 8)]) == Range(0, 8) + Addrs([]);
    assert !AtBoundary([Iovec(0, 8)], 2);
  }

  datatype Outcome = Done | Fault | OutOfBuffers

  /** How a transfer of n bytes ends that is to move want bytes, through buffers at the addresses a, and has moved m:
      it faults exactly if one of those addresses does, moves them all otherwise, and runs out of buffers exactly
      if there is more to move and residue left. */
  ghost predicate Ended(o: Outcome, a: seq<nat>, mem: Memory, n: nat, resid: nat, want: nat, m: nat) {
    && m <= want <= |a| && (o.Fault? <==> !Present(a[..want], mem))
    && (!o.Fault? ==> m == want && (o.OutOfBuffers? <==> want < n && Less(resid, want) > 0))
  }

  lemma EndFault(a: seq<nat>, mem: Memory, n: nat, resid: nat, want: nat, m: nat)
    requires m <= want <= |a| && !Present(a[..want], mem)
    ensures Ended(Fault, a, mem, n, resid, want, m)
  {
  }

  lemma EndWell(o: Outcome, a: seq<nat>, mem: Memory, n: nat, resid: nat, want: nat)
    requires want <= |a| && Present(a[..want], mem) && !o.Fault?
    requires o.OutOfBuffers? <==> want < n && Less(resid, want) > 0
    ensures Ended(o, a, mem, n, resid, want, want)
  {
  }

  lemma EndFacts(o: Outcome, a: seq<nat>, mem: Memory, n: nat, resid: nat, want: nat, m: nat)
    requires Ended(o, a, mem, n, resid, want, m)
    ensures m <= want <= |a| && (o.Fault? <==> !Present(a[..want], mem))
    ensures !o.Fault? ==> m == want && (o.OutOfBuffers? <==> want < n && Less(resid, want) > 0)
  {
  }

  /** uio_iov (with uio_iovcnt its length), uio_resid, uio_offset, uio_rw, and the memory the buffers lie in.
      An address missing from the memory faults; in kernel space there are none. */
  class Uio {
    var iov: seq<Iovec>
    var resid: nat
    var offset: nat
    var mem: Memory
    const read: bool

    /** The residue is not more than the buffers can hold. */
    ghost predicate Valid()
      reads this
    {
      resid < W32 && resid <= |Addrs(iov)|
    }

    constructor (iov: seq<Iovec>, resid: nat, offset: nat, read: bool, mem: Memory)
      requires resid <= |Addrs(iov)| && resid < W32
      ensures Valid() && this.iov == iov && this.resid == resid
      ensures this.offset == offset && this.read == read && this.mem == mem
    {
      this.iov, this.resid, this.offset, this.read, this.mem := iov, resid, offset, read, mem;
    }

    ghost function X(buf: array<bv8>): (x: Xfer)
      reads this, buf
      ensures x.addrs == Addrs(iov) && x.mem == mem && x.buf == buf[..]
    {
      Xfer(Addrs(iov), mem, buf[..])
    }

    /** memmove, copyin or copyout of one stretch, and moving past it. */
    method MoveChunk(buf: array<bv8>, at: nat, size: nat) returns (ok: bool)
      requires iov != [] && size <= iov[0].len && at + size <= buf.Length
      modifies this, buf
      ensures |old(Addrs(iov))| >= size && ok == Present(old(Addrs(iov))[..size], old(mem))
      ensures !ok ==> unchanged(this) && X(buf) == old(X(buf))
      ensures ok ==> offset == old(offset) + size && resid == Less(old(resid), size) && iov == Advanced(old(iov), size)
                     && Moved(read, old(X(buf)), X(buf), at, size)
    {
      Advance(iov, size);
      var base := iov[0].base;
      ghost var a := Addrs(iov);
      assert forall i :: 0 <= i < size ==> a[..size][i] == base + i;
      if !(forall i :: base <= i < base + size ==> i in mem) {
        ghost var i :| base <= i < base + size && i !in mem;
        assert a[..size][i - base] !in mem;
        return false;
      }
      if read {
        mem := Store(mem, Range(base, size), buf[at..at + size]);
      } else {
        forall i | 0 <= i < size { buf[at + i] := mem[base + i]; }
        assert buf[..] == old(buf[..])[..at] + Fetch(mem, a[..size]) + old(buf[..])[at + size..];
      }
      iov := Advanced(iov, size);
      resid, offset := Less(resid, size), offset + size;
      ok := true;
    }

    /** One turn of the loop in uiomove, with m bytes moved since state x. */
    method MoveNext(buf: array<bv8>, at: nat, m: nat, size: nat, ghost left: nat, ghost x: Xfer, ghost want: nat)
      returns (ok: bool)
      requires iov != [] && 0 < size == (if iov[0].len < left then iov[0].len else left)
      requires at + m + size <= buf.Length && 0 < resid < W32 && left < W32
      requires Moved(read, x, X(buf), at, m) && m + Amount(iov, left, resid) == want <= |x.addrs|
      modifies this, buf
      ensures !ok ==> unchanged(this) && X(buf) == old(X(buf)) && !Present(x.addrs[..want], x.mem)
      ensures ok ==> offset == old(offset) + size && resid == Less(old(resid), size) && iov == Advanced(old(iov), size)
                     && Moved(read, x, X(buf), at, m + size) && m + size + Amount(iov, left - size, resid) == want
    {
      hide Moved, Present, Less, Amount, Addrs, Advanced;
      ghost var x1 := X(buf);
      AmountStep(iov, left, resid, size);
      ok := MoveChunk(buf, at + m, size);
      if ok {
        MovedTwice(read, x, x1, X(buf), at, m, size);
      } else {
        FaultWithin(read, x, x1, at, m, size, want);
      }
    }

    /** uiomove, from position at of a kernel buffer. */
    method Uiomove(buf: array<bv8>, at: nat, n: nat) returns (o: Outcome)
      requires resid < W32 && n < W32 && at + n <= buf.Length && (iov == [] ==> resid == 0)
      modifies this, buf
      ensures offset >= old(offset) && resid == Less(old(resid), offset - old(offset))
      ensures Moved(read, old(X(buf)), X(buf), at, offset - old(offset))
      ensures Ended(o, old(Addrs(iov)), old(mem), n, old(resid), old(Amount(iov, n, resid)), offset - old(offset))
      ensures o.Done? ==> Follows(old(iov), old(resid), iov, resid, offset - old(offset))
    {
      hide *;
      ghost var x, want := X(buf), Amount(iov, n, resid);
      FollowsStart(iov, resid);
      var m := 0;
      MovedNothing(read, x, at);
      LessThan(resid, 0);
      while m < n && resid > 0
        invariant 0 <= m <= n && Follows(old(iov), old(resid), iov, resid, m)
        invariant offset == old(offset) + m && resid == Less(old(resid), m)
        invariant Moved(read, x, X(buf), at, m) && m + Amount(iov, n - m, resid) == want
        decreases n - m, |iov|
      {
        FollowsSome(old(iov), old(resid), iov, resid, m);
        var size := iov[0].len;
        if size > n - m {
          size := n - m;
        }
        if size == 0 {
          AmountSkip(iov, n - m, resid);
          FollowsSkip(old(iov), old(resid), iov, resid, m);
          iov := iov[1..];
          if iov == [] {
            AllPresent(read, x, X(buf), at, want);
            EndWell(OutOfBuffers, x.addrs, x.mem, n, old(resid), want);
            return OutOfBuffers;
          }
        } else {
          LessTwice(old(resid), m, size);
          FollowsStep(old(iov), old(resid), iov, resid, m, size);
          var ok := MoveNext(buf, at, m, size, n - m, x, want);
          if !ok {
            EndFault(x.addrs, x.mem, n, old(resid), want, m);
            return Fault;
          }
          m := m + size;
        }
      }
      AmountDone(iov, n - m, resid);
      AllPresent(read, x, X(buf), at, want);
      EndWell(Done, x.addrs, x.mem, n, old(resid), want);
      o := Done;
    }

    /** One call that uiomovezeros makes, with m zero bytes moved before it and left bytes to go. */
    method MoveZeros(zeros: array<bv8>, amt: nat, ghost left: nat, ghost a: seq<nat>, ghost mem0: Memory, ghost m: nat)
      returns (o: Outcome)
      requires read && zeros[..] == ZeroBytes(16) && amt == Least(16, left) && left < W32 && resid < W32
      requires ZerosMoved(a, Addrs(iov), mem0, mem, m) && (iov == [] ==> resid == 0)
      modifies this, zeros
      ensures zeros[..] == ZeroBytes(16) && offset >= old(offset) && resid == Less(old(resid), offset - old(offset))
      ensures ZerosMoved(a, Addrs(iov), mem0, mem, m + (offset - old(offset)))
      ensures var k, z := offset - old(offset), old(ZerosAmount(iov, left, resid));
              && k <= z && k <= amt && m + z <= |a| && (o.Fault? ==> !Present(a[..m + z], mem0))
              && (o.Done? ==> k == amt || resid == 0) && (old(resid) == 0 ==> o.Done? && resid == 0)
              && (o.Done? ==> (iov == [] ==> resid == 0) && k + ZerosAmount(iov, left - amt, resid) == z)
              && (o.OutOfBuffers? ==> k == z < left && resid > 0)
    {
      hide Moved, Present, Store, ZeroBytes, ZerosMoved, Amount, ZerosAmount, Less, Addrs, AtBoundary, Follows, Ended;
      ghost var x := X(zeros);
      assert |zeros[..]| == 16;
      ghost var k := Amount(iov, amt, resid);
      ZerosCall(iov, left, resid);
      if resid == 0 { AmountDone(iov, amt, resid); }
      LessThan(resid, 0);
      NothingPresent(x);
      o := Uiomove(zeros, 0, amt);
      EndFacts(o, x.addrs, x.mem, amt, old(resid), k, offset - old(offset));
      MoreZeros(a, x, X(zeros), mem0, m, offset - old(offset));
      if o.Fault? {
        ZerosFault(a, x, mem0, m, k, old(ZerosAmount(iov, left, resid)));
      } else if o.Done? {
        FollowsSome(old(iov), old(resid), iov, resid, k);
        ZerosDone(old(iov), iov, left, old(resid));
      } else {
        ZerosOut(old(iov), left, old(resid));
      }
    }

    /** uiomovezeros. */
    method Uiomovezeros(n: nat) returns (o: Outcome)
      requires read && resid < W32 && n < W32 && (iov == [] ==> resid == 0)
      modifies this
      ensures offset >= old(offset) && resid == Less(old(resid), offset - old(offset))
      ensures ZerosMoved(old(Addrs(iov)), Addrs(iov), old(mem), mem, offset - old(offset))
      ensures Ended(o, old(Addrs(iov)), old(mem), n, old(resid), old(ZerosAmount(iov, n, resid)), offset - old(offset))
    {
      hide Present, Store, ZeroBytes, ZerosMoved, Addrs, ZerosAmount, Less, AtBoundary, Ended;
      var zeros := new bv8[16](_ => 0);
      AllZero(zeros);
      ghost var a, mem0, want := Addrs(iov), mem, ZerosAmount(iov, n, resid);
      var left := n;
      NoZeros(a, mem);
      LessThan(resid, 0);
      while left > 0
        invariant 0 <= left <= n && old(offset) <= offset <= old(offset) + (n - left)
        invariant resid == Less(old(resid), offset - old(offset))
        invariant zeros[..] == ZeroBytes(16) && (iov == [] ==> resid == 0)
        invariant offset == old(offset) + (n - left) || resid == 0
        invariant offset - old(offset) + ZerosAmount(iov, left, resid) == want
        invariant ZerosMoved(a, Addrs(iov), mem0, mem, offset - old(offset))
      {
        var amt := zeros.Length;
        if amt > left {
          amt := left;
        }
        ghost var m := offset - old(offset);
        o := MoveZeros(zeros, amt, left, a, mem0, m);
        LessTwice(old(resid), m, offset - old(offset) - m);
        if o.Fault? {
          EndFault(a, mem0, n, old(resid), want, offset - old(offset));
          return;
        }
        if o.OutOfBuffers? {
          ZerosPresent(a, Addrs(iov), mem0, mem, offset - old(offset));
          EndWell(o, a, mem0, n, old(resid), want);
          return;
        }
        left := left - amt;
      }
      ZerosEnd(iov, resid);
      ZerosPresent(a, Addrs(iov), mem0, mem, want);
      EndWell(Done, a, mem0, n, old(resid), want);
      o := Done;
    }
  }

  /** How many zero bytes uiomovezeros moves when nothing faults. Its calls of 16 bytes meet the residue exactly when
      that is a multiple of 16 or ends where a buffer ends; otherwise it wraps and n alone counts. */
  function ZerosAmount(iov: seq<Iovec>, n: nat, resid: nat): (m: nat)
    ensures m <= n && m <= |Addrs(iov)|
  {
    Bounded(|Addrs(iov)|, n, resid, resid % 16 == 0 || AtBoundary(iov, resid))
  }

  /** uiomovezeros moves min(n, resid) bytes exactly when it is not asked for more than the residue, or the residue
      is a multiple of 16 or ends where a buffer ends. */
  lemma ZerosExact(iov: seq<Iovec>, n: nat, resid: nat)
    requires resid <= |Addrs(iov)|
    ensures ZerosAmount(iov, n, resid) == Least(n, resid) <==> n <= resid || resid % 16 == 0 || AtBoundary(iov, resid)
  {
    WholeIsBoundary(iov);
  }

  lemma ZerosWithin(iov: seq<Iovec>, n: nat, resid: nat)
    requires n <= resid <= |Addrs(iov)|
    ensures ZerosAmount(iov, n, resid) == n
  {
  }

  /** Thirty-two zero bytes are moved through a uio with a residue of eight. */
  lemma ZerosOverrun()
    ensures ZerosAmount([Iovec(0, 64)], 32, 8) == 32
  {
    assert Addrs([Iovec(0, 64)]) == Range(0, 64) + Addrs([]);
    assert !AtBoundary([Iovec(0, 64)], 8);
  }

  /** A call takes no more than is to be moved in all. */
  lemma ZerosCall(iov: seq<Iovec>, left: nat, resid: nat)
    ensures Amount(iov, Least(16, left), resid) <= ZerosAmount(iov, left, resid)
  {
  }

  lemma ZerosDone(iov: seq<Iovec>, iov': seq<Iovec>, left: nat, resid: nat)
    requires left < W32 && resid < W32
    requires var k := Amount(iov, Least(16, left), resid);
             && Addrs(iov') == Addrs(iov)[k..] && Follows(iov, resid, iov', Less(resid, k), k)
             && !(k < Least(16, left) && Less(resid, k) > 0)
    ensures var amt, k := Least(16, left), Amount(iov, Least(16, left), resid);
            k + ZerosAmount(iov', left - amt, Less(resid, k)) == ZerosAmount(iov, left, resid)
  {
    hide Less, Bounded, Addrs;
    var k := Amount(iov, Least(16, left), resid);
    var b, b' := AtBoundary(iov, resid), AtBoundary(iov', Less(resid, k));
    if b { BoundaryFits(iov, resid); }
    WholeIsBoundary(iov);
    ZerosArith(|Addrs(iov)|, left, resid, b, b');
  }

  lemma {:induction false} BoundaryFits(iov: seq<Iovec>, r: nat)
    requires AtBoundary(iov, r)
    ensures r <= |Addrs(iov)|
  {
    if r > 0 { BoundaryFits(iov[1..], r - iov[0].len); }
  }

  lemma ZerosArith(all: nat, left: nat, resid: nat, b: bool, b': bool)
    requires left < W32 && resid < W32 && (resid == 0 || resid == all ==> b) && (b ==> resid <= all)
    requires var k := Bounded(all, Least(16, left), resid, b);
             && !(k < Least(16, left) && Less(resid, k) > 0) && (k < resid ==> b' == b) && (Less(resid, k) == 0 ==> b')
    ensures var amt, k := Least(16, left), Bounded(all, Least(16, left), resid, b);
            var resid' := Less(resid, k);
            && k <= all
            && k + Bounded(all - k, left - amt, resid', resid' % 16 == 0 || b')
               == Bounded(all, left, resid, resid % 16 == 0 || b)
  {
    var amt, k := Least(16, left), Bounded(all, Least(16, left), resid, b);
    if k <= resid {
      LessThan(resid, k);
    } else {
      assert Less(resid, k) == resid - k + W32;
    }
  }

  lemma ZerosOut(iov: seq<Iovec>, left: nat, resid: nat)
    requires left < W32 && resid < W32
    requires var k := Amount(iov, Least(16, left), resid); k < Least(16, left) && Less(resid, k) > 0
    ensures Amount(iov, Least(16, left), resid) == ZerosAmount(iov, left, resid) < left
  {
  }

  lemma ZerosEnd(iov: seq<Iovec>, resid: nat)
    ensures ZerosAmount(iov, 0, resid) == 0
  {
  }

  lemma NothingPresent(x: Xfer)
    ensures Present(x.addrs[..0], x.mem)
  {
  }

  lemma ZerosPresent(a: seq<nat>, a': seq<nat>, mem: Memory, mem': Memory, m: nat)
    requires ZerosMoved(a, a', mem, mem', m)
    ensures m <= |a| && Present(a[..m], mem)
  {
  }

  /** What faults in the next call lies among the bytes still to be moved. */
  lemma ZerosFault(a: seq<nat>, x: Xfer, mem: Memory, m: nat, k: nat, z: nat)
    requires ZerosMoved(a, x.addrs, mem, x.mem, m) && k <= z && m + z <= |a|
    requires k <= |x.addrs| && !Present(x.addrs[..k], x.mem)
    ensures !Present(a[..m + z], mem)
  {
    StoreKeys(mem, a[..m], ZeroBytes(m));
    var i :| 0 <= i < k && x.addrs[..k][i] !in x.mem;
    assert a[..m + z][m + i] !in mem.Keys;
  }

  function Least(a: nat, b: nat): nat { if a < b then a else b }

  lemma NoBuffers(iov: seq<Iovec>)
    ensures iov == [] ==> Addrs(iov) == []
  {
  }

  lemma AllZero(a: array<bv8>)
    requires forall i :: 0 <= i < a.Length ==> a[i] == 0
    ensures a[..] == ZeroBytes(a.Length)
  {
  }

  lemma NoZeros(a: seq<nat>, mem: Memory)
    ensures ZerosMoved(a, a, mem, mem, 0)
  {
  }

  function ZeroBytes(n: nat): (z: seq<bv8>)
    ensures |z| == n
  {
    seq(n, _ => 0 as bv8)
  }

  /** m zero bytes have been written. */
  ghost predicate ZerosMoved(a: seq<nat>, a': seq<nat>, mem: Memory, mem': Memory, m: nat) {
    m <= |a| && a' == a[m..] && Present(a[..m], mem) && mem' == Store(mem, a[..m], ZeroBytes(m))
  }

  lemma MoreZeros(a: seq<nat>, x: Xfer, x': Xfer, mem: Memory, m: nat, k: nat)
    requires ZerosMoved(a, x.addrs, mem, x.mem, m) && Moved(true, x, x', 0, k) && x.buf == ZeroBytes(16)
    ensures ZerosMoved(a, x'.addrs, mem, x'.mem, m + k) && k <= |x.addrs| && x'.addrs == x.addrs[k..] && x'.buf == x.buf
  {
    var p, q := a[..m], x.addrs[..k];
    assert a[..m + k] == p + q;
    assert ZeroBytes(m) + x.buf[0..k] == ZeroBytes(m + k);
    StoreKeys(mem, p, ZeroBytes(m));
    StoreAppend(mem, p, q, ZeroBytes(m), x.buf[0..k]);
    PresentBoth(p, q, mem);
  }

  /** Inside the residue, or with a residue that covers the buffers, uiomove moves what it should. */
  lemma AmountWithin(iov: seq<Iovec>, n: nat, resid: nat)
    requires resid <= |Addrs(iov)| && (n <= resid || resid == |Addrs(iov)|)
    ensures Amount(iov, n, resid) == Least(n, resid)
  {
    WholeIsBoundary(iov);
  }
}
