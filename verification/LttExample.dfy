// A ring of two sub-buffers with one page of 64 bytes each: one dump that is
// the stream, and one that repeats stale data.
module LttExample {
  import opened Bits
  import opened Endian
  import opened LttRing
  import opened LttDump
  import opened LttStream

  const SMALL := Geometry(2, 64, 1, 64, 1, true)

  function Page(b: Byte): Subbuffer {
    Subbuffer([seq(64, _ => b)], 64)
  }

  // The first sub-buffer is full; hot is the commit counter of the second,
  // which holds sevens throughout.
  function Ring(hot: nat, offset: nat): RingBuffer {
    RingBuffer([0, 1], [Page(5), Page(7)], [64, hot], offset, 0)
  }

  lemma Powers()
    ensures Pow2(1) == 2 && Pow2(6) == 64 && Pow2(7) == 128
    ensures IsPow2(64)
    ensures 8 * 64 < Pow256(8)
    ensures Span(64, 1) == 64 && Span(64, 2) == 128
  {
    assert Pow2(2) == 4 && Pow2(3) == 8 && Pow2(4) == 16 && Pow2(5) == 32;
    assert Pow256(1) == 256 && Pow256(2) == 65536;
    assert Pow256(3) >= 65536 && Pow256(4) >= 65536 && Pow256(5) >= 65536 && Pow256(6) >= 65536;
    assert Pow256(7) >= 65536;
    assert Span(64, 0) == 0;
  }

  lemma SmallValid()
    ensures SMALL.Valid()
  {
    hide Pow2, Pow256, Span, IsPow2;
    Powers();
  }

  lemma RingWellFormed(hot: nat, offset: nat)
    ensures WellFormed(SMALL, Ring(hot, offset))
  {
    hide Pow2, And;
    Powers();
    AndMask(0, 1);
    AndMask(1, 1);
  }

  lemma RingObserved(hot: nat, offset: nat)
    ensures SMALL.Valid() && Observed(SMALL, Ring(hot, offset), 0, offset, 7)
  {
    hide Pow2, Span, Geometry.Valid;
    SmallValid();
    Powers();
    assert Pow2(7) == 1 * Span(64, 2);
    assert 0 == 0 + 0 * Pow2(7) && offset == offset + 0 * Pow2(7);
  }

  lemma RingSizes(hot: nat, offset: nat)
    ensures SMALL.Valid() && WellFormed(SMALL, Ring(hot, offset))
    ensures HotSize(SMALL, Ring(hot, offset), 0) == 64
    ensures HotSize(SMALL, Ring(hot, offset), 1) == if hot % 64 == 0 then 64 else hot % 64
  {
    hide And, Pow2, WellFormed;
    SmallValid();
    RingWellFormed(hot, offset);
    Powers();
    MasksAreRemainders(SMALL, Ring(hot, offset), 0);
    MasksAreRemainders(SMALL, Ring(hot, offset), 1);
  }

  // From 64 to 128 the walk passes one boundary.
  lemma OneBoundary(offset: nat)
    requires 64 <= offset < 128
    ensures SMALL.Valid() && Boundaries(SMALL, 0, offset) == 1
    ensures VisitAt(SMALL, 0, offset, 0) == Visit(0, 0, 0)
    ensures VisitAt(SMALL, 0, offset, 1) == Visit(1, 0, offset - 64)
  {
    hide Geometry.Valid;
    SmallValid();
    assert offset / 64 == 1 && offset % 64 == offset - 64;
  }

  // Half of the second sub-buffer written: everything asked for is there ...
  lemma HalfFilled()
    ensures SMALL.Valid() && WellFormed(SMALL, Ring(96, 96)) && Boundaries(SMALL, 0, 96) < SMALL.numSubbuf
    ensures Filled(SMALL, Ring(96, 96), 0, 96)
  {
    hide WellFormed, Geometry.Valid, HotSize, Boundaries, VisitAt;
    RingSizes(96, 96);
    OneBoundary(96);
  }

  // ... and the dump is the stream.
  lemma HalfDumped()
    ensures SMALL.Valid() && WellFormed(SMALL, Ring(96, 96))
    ensures Concat(BufferRaws(SMALL, Ring(96, 96))) == Stream(SMALL, Ring(96, 96), 0, 96)
  {
    hide *;
    HalfFilled();
    RingObserved(96, 96);
    DumpIsStream(SMALL, Ring(96, 96), 0, 96, 7);
  }

  // The offset at the start of the second sub-buffer, which still holds the
  // round before: nothing of it is asked for, and all of it is dumped.
  lemma NothingWritten()
    ensures SMALL.Valid() && WellFormed(SMALL, Ring(64, 64)) && Observed(SMALL, Ring(64, 64), 0, 64, 7)
    ensures From(SMALL, 0, 1) == To(SMALL, 0, 64, 1)
    ensures |BufferRaws(SMALL, Ring(64, 64))| == 2 && BufferRaws(SMALL, Ring(64, 64))[1] != []
  {
    hide WellFormed, Observed, Geometry.Valid, HotSize, Boundaries, VisitAt, BufferRaws, From, To;
    RingSizes(64, 64);
    RingObserved(64, 64);
    OneBoundary(64);
    StaleDataDumped(SMALL, Ring(64, 64), 0, 64, 7);
  }
}
