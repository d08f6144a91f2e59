// The traced kernel's ring buffers as gdb reads them: sub-buffers are reached
// through buf_wsb (ids, masked) and the backend array, here backends, and are
// arrays of pages.
module LttRing {
  import opened Bits
  import opened Endian

  // The size of n pages of p bytes.
  function Span(p: nat, n: nat): nat {
    if n == 0 then 0 else Span(p, n - 1) + p
  }

  datatype Subbuffer = Subbuffer(pages: seq<seq<Byte>>, dataSize: nat)

  // offset and consumed are free-running counters; read as signed longs they
  // may be negative once they have wrapped.
  datatype RingBuffer = RingBuffer(
    wsb: seq<nat>, backends: seq<Subbuffer>, commitHot: seq<nat>, offset: int, consumed: int)

  datatype Geometry = Geometry(
    numSubbuf: nat, subbufSize: nat, numPages: nat, pageSize: nat, idShift: nat, little: bool)
  {
    function IdMask(): nat {
      Pow2(idShift) - 1
    }

    // Sub-buffers are made of pages.
    ghost predicate Paged() {
      pageSize > 0 && subbufSize == Span(pageSize, numPages)
    }

    // What LTTng guarantees of a channel: power-of-two sizes, and room in a
    // page for the packet header.
    ghost predicate Valid() {
      && numSubbuf > 0
      && Paged()
      && IsPow2(subbufSize)
      && IsPow2(pageSize)
      && pageSize >= 64
      && 8 * subbufSize < Pow256(8)
    }
  }

  ghost predicate WellFormedSubbuffer(g: Geometry, sub: Subbuffer) {
    && |sub.pages| == g.numPages
    && forall i :: 0 <= i < g.numPages ==> |sub.pages[i]| == g.pageSize
  }

  ghost predicate WellFormed(g: Geometry, ring: RingBuffer) {
    && |ring.wsb| == |ring.commitHot| == g.numSubbuf
    && (forall i :: 0 <= i < g.numSubbuf ==> And(ring.wsb[i], g.IdMask()) < |ring.backends|)
    && (forall i :: 0 <= i < |ring.backends| ==> WellFormedSubbuffer(g, ring.backends[i]))
  }

  // The sub-buffer behind ring position cidx.
  function SubbufferAt(g: Geometry, ring: RingBuffer, cidx: nat): Subbuffer
    requires WellFormed(g, ring) && cidx < g.numSubbuf
  {
    ring.backends[And(ring.wsb[cidx], g.IdMask())]
  }

  // How much of ring position cidx has been written.
  function HotSize(g: Geometry, ring: RingBuffer, cidx: nat): nat
    requires g.Valid() && WellFormed(g, ring) && cidx < g.numSubbuf
  {
    var hot := ring.commitHot[cidx];
    if And(hot, g.subbufSize - 1) == 0 then SubbufferAt(g, ring, cidx).dataSize
    else hot % g.subbufSize
  }

  // In numbers: ids count modulo 2^idShift, and a hot value that is a multiple
  // of the sub-buffer size says that the recorded data size counts.
  lemma MasksAreRemainders(g: Geometry, ring: RingBuffer, cidx: nat)
    requires g.Valid() && WellFormed(g, ring) && cidx < g.numSubbuf
    ensures
      var place, hot := ring.wsb[cidx] % Pow2(g.idShift), ring.commitHot[cidx] % g.subbufSize;
      && 0 <= place < |ring.backends|
      && SubbufferAt(g, ring, cidx) == ring.backends[place]
      && HotSize(g, ring, cidx) == if hot == 0 then ring.backends[place].dataSize else hot
  {
    hide And, Pow256, Span;
    var k: nat :| g.subbufSize == Pow2(k);
    AndMask(ring.wsb[cidx], g.idShift);
    AndMask(ring.commitHot[cidx], k);
  }

  // The pages of a sub-buffer, end to end.
  function Flat(pages: seq<seq<Byte>>): seq<Byte> {
    if pages == [] then [] else Flat(pages[..|pages| - 1]) + pages[|pages| - 1]
  }

  function Bytes(g: Geometry, sub: Subbuffer): (bs: seq<Byte>)
    requires g.Paged() && WellFormedSubbuffer(g, sub)
    ensures |bs| == g.subbufSize
  {
    FlatLength(sub.pages, g.pageSize);
    Flat(sub.pages)
  }

  lemma SpanIsProduct(p: nat, i: nat)
    ensures Span(p, i) == p * i
  {
  }

  lemma {:induction false} SpanMonotone(p: nat, i: nat, j: nat)
    requires i <= j
    ensures Span(p, i) <= Span(p, j)
  {
    if i < j {
      SpanMonotone(p, i, j - 1);
    }
  }

  lemma PageOf(p: nat, start: nat)
    requires p > 0
    ensures start / p >= 0 && 0 <= start % p < p
    ensures Span(p, start / p) + start % p == start
  {
    SpanIsProduct(p, start / p);
  }

  lemma {:induction false} FlatLength(pages: seq<seq<Byte>>, p: nat)
    requires forall i :: 0 <= i < |pages| ==> |pages[i]| == p
    ensures |Flat(pages)| == Span(p, |pages|)
  {
    if pages != [] {
      FlatLength(pages[..|pages| - 1], p);
    }
  }

  lemma {:induction false} FlatPage(pages: seq<seq<Byte>>, p: nat, i: nat)
    requires forall k :: 0 <= k < |pages| ==> |pages[k]| == p
    requires i < |pages|
    ensures Span(p, i) + p <= |Flat(pages)|
    ensures Flat(pages)[Span(p, i)..Span(p, i) + p] == pages[i]
  {
    var init := pages[..|pages| - 1];
    FlatLength(init, p);
    if i < |init| {
      FlatPage(init, p, i);
    }
  }

  lemma SliceOfSlice(s: seq<Byte>, base: nat, len: nat, a: nat, b: nat)
    requires base + len <= |s| && a <= b <= len
    ensures s[base + a..base + b] == s[base..base + len][a..b]
  {
    var page := s[base..base + len];
    forall k | 0 <= k < b - a
      ensures s[base + a..base + b][k] == page[a..b][k]
    {
      assert page[a + k] == s[base + (a + k)];
    }
  }

  // Page i of a sub-buffer, from a to b.
  lemma PageSlice(g: Geometry, sub: Subbuffer, i: nat, a: nat, b: nat)
    requires g.Paged() && WellFormedSubbuffer(g, sub)
    requires i < g.numPages && a <= b <= g.pageSize
    ensures Span(g.pageSize, i) + g.pageSize <= g.subbufSize
    ensures Bytes(g, sub)[Span(g.pageSize, i) + a..Span(g.pageSize, i) + b]
         == sub.pages[i][a..b]
  {
    hide Flat;
    FlatPage(sub.pages, g.pageSize, i);
    var all, base := Bytes(g, sub), Span(g.pageSize, i);
    SliceOfSlice(all, base, g.pageSize, a, b);
  }

  // The indexing the buffers are described by: divide by the page size for
  // the page, take the remainder for the offset into it.
  lemma ByteByPage(g: Geometry, sub: Subbuffer, k: nat, page: nat, offset: nat)
    requires g.Paged() && WellFormedSubbuffer(g, sub) && k < g.subbufSize
    requires page == k / g.pageSize && offset == k % g.pageSize
    ensures page < g.numPages && offset < g.pageSize
    ensures Bytes(g, sub)[k] == sub.pages[page][offset]
  {
    PageOf(g.pageSize, k);
    PageHolds(g, page, k);
    ByteOfPage(g, sub, page, offset, k);
  }

  lemma PageHolds(g: Geometry, i: nat, k: nat)
    requires g.Paged() && Span(g.pageSize, i) <= k < g.subbufSize
    ensures i < g.numPages
  {
    if i >= g.numPages {
      SpanMonotone(g.pageSize, g.numPages, i);
    }
  }

  lemma ByteOfPage(g: Geometry, sub: Subbuffer, i: nat, j: nat, k: nat)
    requires g.Paged() && WellFormedSubbuffer(g, sub)
    requires i < g.numPages && j < g.pageSize && k == Span(g.pageSize, i) + j
    ensures k < g.subbufSize && Bytes(g, sub)[k] == sub.pages[i][j]
  {
    PageSlice(g, sub, i, j, j + 1);
    assert Bytes(g, sub)[k..k + 1][0] == sub.pages[i][j..j + 1][0];
  }
}
