/** The ring buffer in two phases: bytes are written, then read where they lie, and released once nobody needs them. */
module RingBuffer {
  import opened ByteOrder

  /** `struct iovec`: an offset in the data and a length. */
  datatype Iovec = Iovec(base: nat, len: nat)

  /** The place `i` further on, around the end. */
  function Ahead(max: nat, from: nat, i: nat): nat {
    if from + i < max then from + i else if from + i < max + max then from + i - max else 0
  }

  /** The place `i` further back, around the beginning. */
  function Back(max: nat, from: nat, i: nat): nat {
    if i <= from then from - i else if i <= from + max then from + max - i else 0
  }

  lemma ModIsAhead(max: nat, from: nat, i: nat)
    requires from < max && i <= max
    ensures (from + i) % max == Ahead(max, from, i) < max
  {
    if from + i >= max {
      assert from + i == max + (from + i - max) && (from + i - max) < max;
      ModOnce(max, from + i - max);
    }
  }

  lemma ModOnce(max: nat, r: nat)
    requires r < max
    ensures (max + r) % max == r
  {
  }

  /** The `n` bytes of the ring from `from` on. */
  ghost function Span(d: Bytes, from: nat, n: nat): (s: Bytes)
    requires from < |d| && n <= |d|
    ensures |s| == n && forall i :: 0 <= i < n ==> s[i] == d[Ahead(|d|, from, i)]
  {
    seq(n, i requires 0 <= i < n => d[Ahead(|d|, from, i)])
  }

  lemma SpanSplit(d: Bytes, from: nat, a: nat, b: nat)
    requires from < |d| && a + b <= |d|
    ensures Ahead(|d|, from, a) < |d| && Span(d, from, a + b) == Span(d, from, a) + Span(d, Ahead(|d|, from, a), b)
  {
    var s := Span(d, from, a) + Span(d, Ahead(|d|, from, a), b);
    forall i | 0 <= i < a + b
      ensures s[i] == d[Ahead(|d|, from, i)]
    {
      if i >= a {
        assert Ahead(|d|, Ahead(|d|, from, a), i - a) == Ahead(|d|, from, i);
      }
    }
  }

  /** The bytes that an iovec covers, end to end. */
  ghost function Gather(d: Bytes, iov: seq<Iovec>): Bytes
    requires forall v <- iov :: v.base + v.len <= |d|
  {
    if iov == [] then [] else d[iov[0].base..][..iov[0].len] + Gather(d, iov[1..])
  }

  /** One or two spans: from `from` up to the end of the data, and on from the beginning. */
  function Spans(max: nat, from: nat, n: nat): seq<Iovec>
    requires from < max && n <= max
  {
    if n == 0 then [] else if n <= max - from then [Iovec(from, n)] else [Iovec(from, max - from), Iovec(0, n - (max - from))]
  }

  lemma SpansGather(d: Bytes, from: nat, n: nat)
    requires from < |d| && n <= |d|
    ensures Gather(d, Spans(|d|, from, n)) == Span(d, from, n)
  {
    if n == 0 {
      assert Gather(d, []) == [];
    } else if n <= |d| - from {
      GatherOne(d, Iovec(from, n));
      Straight(d, from, n);
    } else {
      var upper := |d| - from;
      GatherTwo(d, Iovec(from, upper), Iovec(0, n - upper));
      SpanSplit(d, from, upper, n - upper);
      Straight(d, from, upper);
      Straight(d, 0, n - upper);
    }
  }

  lemma Straight(d: Bytes, from: nat, n: nat)
    requires from < |d| && from + n <= |d|
    ensures Span(d, from, n) == d[from..][..n]
  {
  }

  lemma GatherOne(d: Bytes, v: Iovec)
    requires v.base + v.len <= |d|
    ensures Gather(d, [v]) == d[v.base..][..v.len]
  {
    assert [v][1..] == [];
    assert Gather(d, []) == [];
  }

  lemma GatherTwo(d: Bytes, v: Iovec, w: Iovec)
    requires v.base + v.len <= |d| && w.base + w.len <= |d|
    ensures Gather(d, [v, w]) == d[v.base..][..v.len] + d[w.base..][..w.len]
  {
    assert [v, w][1..] == [w];
    GatherOne(d, w);
  }

  class RingBuffer {
    var rp: nat
    var wp: nat
    var rdaSize: nat
    var useSize: nat
    const data: array<byte>

    /** `max_size` */
    function Max(): nat { data.Length }

    ghost predicate Valid()
      reads this
    {
      rdaSize <= useSize <= Max() && rp < Max() && wp < Max() && wp == Ahead(Max(), rp, rdaSize)
    }

    /** Read and not yet released: from here on, the bytes may still be looked at. */
    ghost function InFlight(): (s: Bytes)
      requires Valid()
      reads this, data
    {
      Span(data[..], Back(Max(), rp, useSize - rdaSize), useSize - rdaSize)
    }

    /** Written and not yet read. */
    ghost function Unread(): (s: Bytes)
      requires Valid()
      reads this, data
    {
      Span(data[..], rp, rdaSize)
    }

    /** hev_ring_buffer_alloca */
    constructor (size: nat)
      requires size > 0
      ensures Valid() && fresh(data) && Max() == size && useSize == 0 && InFlight() == [] && Unread() == []
    {
      rp, wp, rdaSize, useSize := 0, 0, 0, 0;
      data := new byte[size];
    }

    /** The spans hold exactly the bytes that are not yet read, in order. */
    method Reading() returns (iov: seq<Iovec>)
      requires Valid()
      ensures iov == Spans(Max(), rp, rdaSize) && Gather(data[..], iov) == Unread() && (iov == [] <==> Unread() == [])
    {
      SpansGather(data[..], rp, rdaSize);
      if 0 == rdaSize {
        return [];
      }
      var upperSize := Max() - rp;
      if rdaSize <= upperSize {
        return [Iovec(rp, rdaSize)];
      }
      return [Iovec(rp, upperSize), Iovec(0, rdaSize - upperSize)];
    }

    /** The next `size` bytes are taken: they stay where they are. */
    method ReadFinish(size: nat)
      requires Valid() && size <= rdaSize
      modifies this`rp, this`rdaSize
      ensures Valid() && useSize == old(useSize)
      ensures InFlight() == old(InFlight()) + old(Unread())[..size] && Unread() == old(Unread())[size..]
    {
      ghost var d := data[..];
      ModIsAhead(Max(), rp, size);
      Taken(d, rp, rdaSize, useSize, size);
      rp := (rp + size) % Max();
      rdaSize := rdaSize - size;
    }

    /** The oldest `size` bytes are given up. */
    method ReadRelease(size: nat)
      requires Valid() && size <= useSize - rdaSize
      modifies this`rp, this`wp, this`useSize
      ensures Valid() && useSize == old(useSize) - size && rdaSize == old(rdaSize)
      ensures InFlight() == old(InFlight())[size..] && Unread() == old(Unread())
    {
      ghost var d := data[..];
      GivenUp(d, rp, rdaSize, useSize, size);
      useSize := useSize - size;
      if useSize == 0 {
        rp := 0;
        wp := 0;
      }
    }

    /** The spans cover all the free room, and none of the bytes in use. */
    method Writing() returns (iov: seq<Iovec>)
      requires Valid()
      ensures iov == Spans(Max(), wp, Max() - useSize) && (iov == [] <==> useSize == Max())
    {
      if useSize == Max() {
        return [];
      }
      var upperSize := Max() - wp;
      var spcSize := Max() - useSize;
      if spcSize <= upperSize {
        return [Iovec(wp, spcSize)];
      }
      return [Iovec(wp, upperSize), Iovec(0, spcSize - upperSize)];
    }

    /** `size` bytes were stored from the write pointer on. */
    method WriteFinish(size: nat)
      requires Valid() && size <= Max() - useSize
      modifies this`wp, this`rdaSize, this`useSize
      ensures Valid() && useSize == old(useSize) + size && rdaSize == old(rdaSize) + size
      ensures InFlight() == old(InFlight()) && Unread() == old(Unread()) + Span(data[..], old(wp), size)
    {
      ghost var d := data[..];
      ModIsAhead(Max(), wp, size);
      SpanSplit(d, rp, rdaSize, size);
      wp := (wp + size) % Max();
      useSize := useSize + size;
      rdaSize := rdaSize + size;
    }
  }

  lemma Taken(d: Bytes, rp: nat, rda: nat, use: nat, size: nat)
    requires rp < |d| && size <= rda <= use <= |d|
    ensures var rp' := Ahead(|d|, rp, size);
      && rp' < |d| && Ahead(|d|, rp', rda - size) == Ahead(|d|, rp, rda)
      && Span(d, Back(|d|, rp', use - (rda - size)), use - (rda - size)) == Span(d, Back(|d|, rp, use - rda), use - rda) + Span(d, rp, rda)[..size]
      && Span(d, rp', rda - size) == Span(d, rp, rda)[size..]
  {
    SpanSplit(d, rp, size, rda - size);
    var b := Back(|d|, rp, use - rda);
    BackAhead(|d|, rp, use - rda, size);
    SpanSplit(d, b, use - rda, size);
  }

  lemma BackAhead(max: nat, rp: nat, k: nat, size: nat)
    requires rp < max && k + size <= max
    ensures Back(max, Ahead(max, rp, size), k + size) == Back(max, rp, k) < max && Ahead(max, Back(max, rp, k), k) == rp
  {
  }

  lemma GivenUp(d: Bytes, rp: nat, rda: nat, use: nat, size: nat)
    requires rp < |d| && rda <= use <= |d| && size <= use - rda
    ensures Span(d, Back(|d|, rp, use - size - rda), use - size - rda) == Span(d, Back(|d|, rp, use - rda), use - rda)[size..]
  {
    var b := Back(|d|, rp, use - rda);
    SpanSplit(d, b, size, use - rda - size);
    assert Ahead(|d|, b, size) == Back(|d|, rp, use - size - rda);
  }

  // ---------------------------------------------------------------- what may be stored without harm

  /** Only places that `iov` covers are different. */
  ghost predicate OnlyIn(d: Bytes, d': Bytes, iov: seq<Iovec>) {
    |d| == |d'| && forall o :: 0 <= o < |d| && d'[o] != d[o] ==> exists v <- iov :: v.base <= o < v.base + v.len
  }

  /** Whatever is stored in the spans for writing, no byte in flight and no byte still to be read is touched. */
  lemma WritingIsSafe(d: Bytes, d': Bytes, rp: nat, rda: nat, use: nat)
    requires rp < |d| && rda <= use <= |d|
    requires OnlyIn(d, d', Spans(|d|, Ahead(|d|, rp, rda), |d| - use))
    ensures Span(d', rp, rda) == Span(d, rp, rda)
    ensures Span(d', Back(|d|, rp, use - rda), use - rda) == Span(d, Back(|d|, rp, use - rda), use - rda)
  {
    var (b, max) := (Back(|d|, rp, use - rda), |d|);
    forall i | 0 <= i < use
      ensures d'[Ahead(max, b, i)] == d[Ahead(max, b, i)]
    {
      UsedIsNotFree(max, rp, rda, use, i);
    }
    forall i | 0 <= i < rda
      ensures d'[Ahead(max, rp, i)] == d[Ahead(max, rp, i)]
    {
      assert Ahead(max, rp, i) == Ahead(max, b, use - rda + i);
    }
  }

  lemma UsedIsNotFree(max: nat, rp: nat, rda: nat, use: nat, i: nat)
    requires rp < max && rda <= use <= max && i < use
    ensures forall v <- Spans(max, Ahead(max, rp, rda), max - use) :: !(v.base <= Ahead(max, Back(max, rp, use - rda), i) < v.base + v.len)
  {
  }

  /** Where the i-th byte that is stored goes. */
  lemma SpansPlace(max: nat, from: nat, n: nat, i: nat)
    requires from < max && i < n <= max
    ensures var iov := Spans(max, from, n);
      iov != [] && Ahead(max, from, i) == if i < iov[0].len then iov[0].base + i else i - iov[0].len
  {
  }
}
