/**
 Fixed-size bitmap stored in bytes (kern/lib/bitmap.c), refined to the set of
 indices that are marked.
 */
module Bitmap {
  import opened Words

  const BITS_PER_WORD := 8
  const WORD_ALLBITS: bv8 := 0xff

  /** The largest number of bits whose number of bytes is computed without wrapping around. */
  const MOST_BITS := W32 - BITS_PER_WORD

  /** DIVROUNDUP(n, BITS_PER_WORD), in 32 bits. */
  function WordCount(n: nat): nat { (n + BITS_PER_WORD - 1) % W32 / BITS_PER_WORD }

  /** There are bytes enough for n bits, and none too many, exactly up to that number; beyond it there is none. */
  lemma WordsSuffice(n: nat)
    requires n < W32
    ensures n <= WordCount(n) * BITS_PER_WORD < n + BITS_PER_WORD <==> n <= MOST_BITS
    ensures n > MOST_BITS ==> WordCount(n) == 0
  {
  }

  function Mask(offset: nat): bv8
    requires offset < BITS_PER_WORD
  {
    (1 as bv8) << offset
  }

  predicate Bit(w: bv8, offset: nat)
    requires offset < BITS_PER_WORD
  {
    w & Mask(offset) != 0
  }

  lemma BitOr(w: bv8, k: nat, j: nat)
    requires k < BITS_PER_WORD && j < BITS_PER_WORD
    ensures Bit(w | Mask(k), j) <==> (j == k || Bit(w, j))
  {
  }

  lemma BitClear(w: bv8, k: nat, j: nat)
    requires k < BITS_PER_WORD && j < BITS_PER_WORD
    ensures Bit(w & !Mask(k), j) <==> (j != k && Bit(w, j))
  {
  }

  lemma AllBits(w: bv8)
    ensures w == WORD_ALLBITS <==> forall j :: 0 <= j < BITS_PER_WORD ==> Bit(w, j)
  {
    if forall j :: 0 <= j < BITS_PER_WORD ==> Bit(w, j) {
      assert Bit(w, 0) && Bit(w, 1) && Bit(w, 2) && Bit(w, 3);
      assert Bit(w, 4) && Bit(w, 5) && Bit(w, 6) && Bit(w, 7);
    }
  }

  lemma NoBits(j: nat)
    requires j < BITS_PER_WORD
    ensures !Bit(0, j)
  {
  }

  /** Bit i of a byte sequence. */
  predicate SeqBit(s: seq<bv8>, i: nat)
    requires i < |s| * BITS_PER_WORD
  {
    Bit(s[i / BITS_PER_WORD], i % BITS_PER_WORD)
  }

  /** The marked indices below n. */
  ghost function Indices(s: seq<bv8>, n: nat): set<nat>
    requires n <= |s| * BITS_PER_WORD
  {
    set i: nat | i < n && SeqBit(s, i)
  }

  /** Everything from n on is marked. */
  ghost predicate Padded(s: seq<bv8>, n: nat)
    requires n <= |s| * BITS_PER_WORD
  {
    forall i :: n <= i < |s| * BITS_PER_WORD ==> SeqBit(s, i)
  }

  lemma SetBit(s: seq<bv8>, i: nat, n: nat)
    requires i < n <= |s| * BITS_PER_WORD
    ensures var s' := s[i / BITS_PER_WORD := s[i / BITS_PER_WORD] | Mask(i % BITS_PER_WORD)];
            Indices(s', n) == Indices(s, n) + {i} && (Padded(s, n) ==> Padded(s', n))
  {
    var s' := s[i / BITS_PER_WORD := s[i / BITS_PER_WORD] | Mask(i % BITS_PER_WORD)];
    forall j | 0 <= j < |s| * BITS_PER_WORD
      ensures SeqBit(s', j) <==> (j == i || SeqBit(s, j))
    {
      BitOr(s[i / BITS_PER_WORD], i % BITS_PER_WORD, j % BITS_PER_WORD);
    }
  }

  lemma ClearBit(s: seq<bv8>, i: nat, n: nat)
    requires i < n <= |s| * BITS_PER_WORD
    ensures var s' := s[i / BITS_PER_WORD := s[i / BITS_PER_WORD] & !Mask(i % BITS_PER_WORD)];
            Indices(s', n) == Indices(s, n) - {i} && (Padded(s, n) ==> Padded(s', n))
  {
    var s' := s[i / BITS_PER_WORD := s[i / BITS_PER_WORD] & !Mask(i % BITS_PER_WORD)];
    forall j | 0 <= j < |s| * BITS_PER_WORD
      ensures SeqBit(s', j) <==> (j != i && SeqBit(s, j))
    {
      BitClear(s[i / BITS_PER_WORD], i % BITS_PER_WORD, j % BITS_PER_WORD);
    }
  }

  /** The inner search of bitmap_alloc: the first clear bit of a byte that has one. */
  method FirstClear(w: bv8) returns (offset: nat)
    requires w != WORD_ALLBITS
    ensures offset < BITS_PER_WORD && !Bit(w, offset)
    ensures forall j :: 0 <= j < offset ==> Bit(w, j)
  {
    AllBits(w);
    offset := 0;
    while w & Mask(offset) != 0
      invariant offset < BITS_PER_WORD
      invariant forall j :: 0 <= j < offset ==> Bit(w, j)
      decreases BITS_PER_WORD - offset
    {
      assert Bit(w, offset);
      offset := offset + 1;
    }
  }

  /** The bit found is the least clear one, hence not padding. */
  lemma LeastClear(s: seq<bv8>, ix: nat, offset: nat, n: nat)
    requires ix < |s| && offset < BITS_PER_WORD && n <= |s| * BITS_PER_WORD && Padded(s, n)
    requires forall j :: 0 <= j < ix * BITS_PER_WORD ==> SeqBit(s, j)
    requires !Bit(s[ix], offset) && forall j :: 0 <= j < offset ==> Bit(s[ix], j)
    ensures var index := ix * BITS_PER_WORD + offset;
            index < n && index !in Indices(s, n) && forall j: nat :: j < index ==> j in Indices(s, n)
  {
    var index := ix * BITS_PER_WORD + offset;
    assert index / BITS_PER_WORD == ix && index % BITS_PER_WORD == offset;
    assert !SeqBit(s, index);
    forall j: nat | ix * BITS_PER_WORD <= j < index ensures SeqBit(s, j) {
      assert j / BITS_PER_WORD == ix && j % BITS_PER_WORD < offset;
    }
  }

  /** Marking the bit found adds its index, and no other. */
  lemma TakeLeast(s: seq<bv8>, ix: nat, offset: nat, n: nat)
    requires ix < |s| && offset < BITS_PER_WORD && n <= |s| * BITS_PER_WORD && Padded(s, n)
    requires forall j :: 0 <= j < ix * BITS_PER_WORD ==> SeqBit(s, j)
    requires !Bit(s[ix], offset) && forall j :: 0 <= j < offset ==> Bit(s[ix], j)
    ensures var index, s' := ix * BITS_PER_WORD + offset, s[ix := s[ix] | Mask(offset)];
            && index < n && index !in Indices(s, n) && (forall j: nat :: j < index ==> j in Indices(s, n))
            && Indices(s', n) == Indices(s, n) + {index} && Padded(s', n)
  {
    hide Indices, Padded, SeqBit, Bit, Mask;
    LeastClear(s, ix, offset, n);
    var index := ix * BITS_PER_WORD + offset;
    assert index / BITS_PER_WORD == ix && index % BITS_PER_WORD == offset;
    SetBit(s, index, n);
  }

  lemma AllMarked(s: seq<bv8>, n: nat)
    requires n <= |s| * BITS_PER_WORD && forall j :: 0 <= j < |s| * BITS_PER_WORD ==> SeqBit(s, j)
    ensures forall i: nat :: i < n ==> i in Indices(s, n)
  {
  }

  lemma WholeByte(s: seq<bv8>, ix: nat)
    requires ix < |s| && s[ix] == WORD_ALLBITS
    ensures forall j :: ix * BITS_PER_WORD <= j < (ix + 1) * BITS_PER_WORD ==> SeqBit(s, j)
  {
    AllBits(s[ix]);
  }

  /** The zeroed byte array of bitmap_create, its leftover bits marked. */
  method Blank(n: nat) returns (a: array<bv8>)
    requires n < W32
    ensures fresh(a) && a.Length == WordCount(n)
    ensures n <= MOST_BITS ==> n <= |a[..]| * BITS_PER_WORD && Indices(a[..], n) == {} && Padded(a[..], n)
  {
    hide WordCount;
    WordsSuffice(n);
    var words := WordCount(n);
    a := new bv8[words](_ => 0);
    forall j | 0 <= j < words * BITS_PER_WORD ensures !SeqBit(a[..], j) { NoBits(j % BITS_PER_WORD); }
    if words > n / BITS_PER_WORD {
      var ix := words - 1;
      var overbits := n - ix * BITS_PER_WORD;
      assert n / BITS_PER_WORD == ix && 0 < overbits < BITS_PER_WORD;
      for j := overbits to BITS_PER_WORD
        invariant forall i :: 0 <= i < words * BITS_PER_WORD ==>
                    (SeqBit(a[..], i) <==> n <= i < ix * BITS_PER_WORD + j)
      {
        ghost var s := a[..];
        a[ix] := a[ix] | Mask(j);
        assert a[..] == s[ix := s[ix] | Mask(j)];
        OneMore(s, ix, j);
      }
    }
  }

  lemma OneMore(s: seq<bv8>, ix: nat, j: nat)
    requires ix < |s| && j < BITS_PER_WORD
    ensures var s' := s[ix := s[ix] | Mask(j)];
            forall x :: 0 <= x < |s| * BITS_PER_WORD ==>
              (SeqBit(s', x) <==> (x == ix * BITS_PER_WORD + j || SeqBit(s, x)))
  {
    var s' := s[ix := s[ix] | Mask(j)];
    forall x | 0 <= x < |s| * BITS_PER_WORD
      ensures SeqBit(s', x) <==> (x == ix * BITS_PER_WORD + j || SeqBit(s, x))
    {
      BitOr(s[ix], j, x % BITS_PER_WORD);
    }
  }

  datatype AllocResult = Allocated(index: nat) | NoSpace

  class Bitmap {
    const nbits: nat
    const v: array<bv8>

    /** What bitmap_create leaves: as many bytes as were computed, and padding bits marked if there are enough. */
    ghost predicate Created()
      reads this, v
    {
      && nbits < W32 && v.Length == WordCount(nbits)
      && (nbits <= MOST_BITS ==> nbits <= |v[..]| * BITS_PER_WORD && Padded(v[..], nbits))
    }

    /** The byte array is just large enough, and its padding bits are marked. */
    ghost predicate Valid()
      reads this, v
    {
      Created() && nbits <= MOST_BITS
    }

    /** The indices in use. */
    ghost function Marked(): set<nat>
      reads this, v
      requires Valid()
    {
      Indices(v[..], nbits)
    }

    /** bitmap_create: nothing marked except the padding, if the number of bytes did not wrap around. */
    constructor (n: nat)
      requires n < W32
      ensures nbits == n && fresh(v) && Created() && (n <= MOST_BITS ==> Valid() && Marked() == {})
    {
      nbits := n;
      var a := Blank(n);
      v := a;
    }

    /** bitmap_alloc: takes the least free index, or fails exactly when there is none; on a map whose number of bytes
        wrapped around it always fails. */
    method Alloc() returns (r: AllocResult)
      requires Created()
      modifies v
      ensures Created() && (nbits > MOST_BITS ==> r.NoSpace?)
      ensures Valid() && r.NoSpace? ==> Marked() == old(Marked()) && forall i: nat :: i < nbits ==> i in Marked()
      ensures Valid() && r.Allocated? ==> r.index < nbits && r.index !in old(Marked())
                                          && (forall j: nat :: j < r.index ==> j in old(Marked()))
                                          && Marked() == old(Marked()) + {r.index}
    {
      hide WordCount, Indices, Padded, SeqBit, Bit;
      WordsSuffice(nbits);
      var maxix := WordCount(nbits);
      for ix := 0 to maxix
        invariant v[..] == old(v[..])
        invariant forall j :: 0 <= j < ix * BITS_PER_WORD ==> SeqBit(v[..], j)
      {
        if v[ix] != WORD_ALLBITS {
          var offset := FirstClear(v[ix]);
          var index := ix * BITS_PER_WORD + offset;
          ghost var s := v[..];
          TakeLeast(s, ix, offset, nbits);
          v[ix] := v[ix] | Mask(offset);
          assert v[..] == s[ix := s[ix] | Mask(offset)];
          return Allocated(index);
        }
        WholeByte(v[..], ix);
      }
      if nbits <= MOST_BITS { AllMarked(v[..], nbits); }
      return NoSpace;
    }

    /** bitmap_mark. */
    method Mark(index: nat)
      requires Valid() && index < nbits && index !in Marked()
      modifies v
      ensures Valid() && Marked() == old(Marked()) + {index}
    {
      var ix, mask := index / BITS_PER_WORD, Mask(index % BITS_PER_WORD);
      ghost var s := v[..];
      assert !SeqBit(s, index);
      assert v[ix] & mask == 0;
      SetBit(s, index, nbits);
      v[ix] := v[ix] | mask;
      assert v[..] == s[ix := s[ix] | mask];
    }

    /** bitmap_unmark. */
    method Unmark(index: nat)
      requires Valid() && index < nbits && index in Marked()
      modifies v
      ensures Valid() && Marked() == old(Marked()) - {index}
    {
      var ix, mask := index / BITS_PER_WORD, Mask(index % BITS_PER_WORD);
      ghost var s := v[..];
      assert SeqBit(s, index);
      assert v[ix] & mask != 0;
      ClearBit(s, index, nbits);
      v[ix] := v[ix] & !mask;
      assert v[..] == s[ix := s[ix] & !mask];
    }

    /** bitmap_isset. */
    method IsSet(index: nat) returns (b: bool)
      requires Valid() && index < nbits
      ensures b <==> index in Marked()
    {
      var ix, mask := index / BITS_PER_WORD, Mask(index % BITS_PER_WORD);
      assert SeqBit(v[..], index) <==> Bit(v[ix], index % BITS_PER_WORD);
      b := v[ix] & mask != 0;
    }
  }
}
