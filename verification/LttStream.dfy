// The ring as a window on an unbounded stream of bytes: which sub-buffers a
// dump visits, and when its packets hold exactly the stream.
module LttStream {
  import opened Bits
  import opened Endian
  import opened LttRing
  import opened LttDump
  import opened LttPackets
  import opened Common

  // The counters as read from a w-bit target: the true positions up to
  // multiples of 2^w, of which the ring size is a divisor.
  ghost predicate Observed(g: Geometry, ring: RingBuffer, consumed: nat, offset: nat, w: nat)
    requires g.Valid()
  {
    && (exists turns: int :: Pow2(w) == turns * Span(g.subbufSize, g.numSubbuf))
    && (exists c: int :: ring.consumed == consumed + c * Pow2(w))
    && (exists o: int :: ring.offset == offset + o * Pow2(w))
  }

  lemma AddMultiple(x: int, q: int, d: nat)
    requires d > 0
    ensures (x + q * d) / d == x / d + q && (x + q * d) % d == x % d
  {
    DivModUnique(x + q * d, d, x / d + q, x % d);
  }

  // A counter that has wrapped indexes the ring like the true position.
  lemma WrapInvisible(g: Geometry, seen: int, actual: int, rounds: int)
    requires g.Valid() && seen == actual + rounds * Span(g.subbufSize, g.numSubbuf)
    ensures RingIndex(g, seen) == RingIndex(g, actual)
    ensures RingOffset(g, seen) == RingOffset(g, actual)
  {
    var s, n := g.subbufSize, g.numSubbuf;
    SpanIsProduct(s, n);
    Reassociate(rounds, n, s);
    AddMultiple(actual, rounds * n, s);
    AddMultiple(actual / s, rounds, n);
  }

  lemma Reassociate(a: int, b: int, c: int)
    ensures a * (c * b) == (a * b) * c
  {
  }

  lemma ObservedIndexes(g: Geometry, ring: RingBuffer, consumed: nat, offset: nat, w: nat)
    requires g.Valid() && Observed(g, ring, consumed, offset, w)
    ensures RingIndex(g, ring.consumed) == RingIndex(g, consumed)
    ensures RingOffset(g, ring.consumed) == RingOffset(g, consumed)
    ensures RingIndex(g, ring.offset) == RingIndex(g, offset)
    ensures RingOffset(g, ring.offset) == RingOffset(g, offset)
  {
    hide RingIndex, RingOffset, Geometry.Valid;
    var turns: int :| Pow2(w) == turns * Span(g.subbufSize, g.numSubbuf);
    var c: int :| ring.consumed == consumed + c * Pow2(w);
    var o: int :| ring.offset == offset + o * Pow2(w);
    Reassociate(c, turns, Span(g.subbufSize, g.numSubbuf));
    Reassociate(o, turns, Span(g.subbufSize, g.numSubbuf));
    WrapInvisible(g, ring.consumed, consumed, c * turns);
    WrapInvisible(g, ring.offset, offset, o * turns);
  }

  // k places after ring position cidx.
  function Ahead(n: nat, cidx: nat, k: nat): nat
    requires cidx < n && k < n
  {
    if cidx + k < n then cidx + k else cidx + k - n
  }

  // The walk goes through consecutive ring positions, starts at coffset in the
  // first, and limits only the last.
  lemma {:induction false} VisitsShape(g: Geometry, cidx: nat, oidx: nat, coffset: nat, ooffset: nat)
    requires cidx < g.numSubbuf && oidx < g.numSubbuf
    ensures
      var visits, d := Visits(g, cidx, oidx, coffset, ooffset), Distance(g.numSubbuf, cidx, oidx);
      |visits| == d + 1
      && forall k :: 0 <= k <= d ==>
           visits[k] == Visit(Ahead(g.numSubbuf, cidx, k), if k == 0 then coffset else 0,
                              if k < d then 0 else if k == 0 then ooffset - coffset else ooffset)
    decreases Distance(g.numSubbuf, cidx, oidx)
  {
    if oidx != cidx {
      VisitsShape(g, Next(g, cidx), oidx, 0, ooffset);
      var visits, rest := Visits(g, cidx, oidx, coffset, ooffset), Visits(g, Next(g, cidx), oidx, 0, ooffset);
      forall k | 1 <= k < |visits|
        ensures visits[k] == rest[k - 1]
        ensures Ahead(g.numSubbuf, cidx, k) == Ahead(g.numSubbuf, Next(g, cidx), k - 1)
      {
      }
    }
  }

  // No sub-buffer is visited twice.
  lemma NoRevisit(g: Geometry, ring: RingBuffer, j: nat, k: nat)
    requires g.Valid() && j < k < |BufferVisits(g, ring)|
    ensures BufferVisits(g, ring)[j].cidx != BufferVisits(g, ring)[k].cidx
  {
    VisitsShape(g, RingIndex(g, ring.consumed), RingIndex(g, ring.offset),
                RingOffset(g, ring.consumed), RingOffset(g, ring.offset));
  }

  // Sub-buffers numbered along the stream, and their places in the ring.
  function Number(g: Geometry, x: nat): nat
    requires g.Valid()
  {
    PageOf(g.subbufSize, x);
    x / g.subbufSize
  }

  function Place(g: Geometry, number: nat): (place: nat)
    requires g.Valid()
    ensures place < g.numSubbuf
  {
    number % g.numSubbuf
  }

  // The number of sub-buffer boundaries between two positions.
  function Boundaries(g: Geometry, consumed: nat, offset: nat): (d: nat)
    requires g.Valid() && consumed <= offset
  {
    DivMonotone(consumed, offset, g.subbufSize);
    Number(g, offset) - Number(g, consumed)
  }

  lemma DivMonotone(x: nat, y: nat, d: nat)
    requires d > 0 && x <= y
    ensures x / d <= y / d
  {
    if x / d > y / d {
      MulMonotone(d, y / d + 1, x / d);
    }
  }

  lemma AheadIsModulo(x: nat, k: nat, n: nat)
    requires k < n
    ensures (x + k) % n == Ahead(n, x % n, k)
    ensures Distance(n, x % n, (x + k) % n) == k
  {
    var q, r := x / n, x % n;
    if r + k < n {
      DivModUnique(x + k, n, q, r + k);
    } else {
      DivModUnique(x + k, n, q + 1, r + k - n);
    }
  }

  // Visit k of a walk from consumed to offset.
  function VisitAt(g: Geometry, consumed: nat, offset: nat, k: nat): Visit
    requires g.Valid() && consumed <= offset && k <= Boundaries(g, consumed, offset) < g.numSubbuf
  {
    var start := if k == 0 then RingOffset(g, consumed) else 0;
    Visit(Place(g, Number(g, consumed) + k), start,
          if k < Boundaries(g, consumed, offset) then 0 else RingOffset(g, offset) - start)
  }

  // Counter wrap safety: whatever the counters have wrapped to, the walk visits
  // the sub-buffers from consumed to offset in order, and stops.
  lemma WrapSafety(g: Geometry, ring: RingBuffer, consumed: nat, offset: nat, w: nat)
    requires g.Valid() && consumed <= offset && Observed(g, ring, consumed, offset, w)
    requires Boundaries(g, consumed, offset) < g.numSubbuf
    ensures |BufferVisits(g, ring)| == Boundaries(g, consumed, offset) + 1
    ensures forall k :: 0 <= k <= Boundaries(g, consumed, offset) ==>
      BufferVisits(g, ring)[k] == VisitAt(g, consumed, offset, k)
  {
    hide Visits, Observed, Geometry.Valid;
    ObservedIndexes(g, ring, consumed, offset, w);
    IndexIsPlace(g, consumed);
    IndexIsPlace(g, offset);
    WalkModulo(g, Number(g, consumed), Number(g, offset), RingOffset(g, consumed), RingOffset(g, offset));
  }

  // The walk takes one step per boundary exactly if the reader has not been
  // overrun by a whole round.
  lemma StopsAtDistanceIff(g: Geometry, ring: RingBuffer, consumed: nat, offset: nat, w: nat)
    requires g.Valid() && consumed <= offset && Observed(g, ring, consumed, offset, w)
    ensures |BufferVisits(g, ring)| == Boundaries(g, consumed, offset) + 1
      <==> Boundaries(g, consumed, offset) < g.numSubbuf
  {
    hide Visits, Observed, RingIndex, RingOffset;
    if Boundaries(g, consumed, offset) < g.numSubbuf {
      WrapSafety(g, ring, consumed, offset, w);
    } else {
      VisitsShape(g, RingIndex(g, ring.consumed), RingIndex(g, ring.offset),
                  RingOffset(g, ring.consumed), RingOffset(g, ring.offset));
    }
  }

  lemma IndexIsPlace(g: Geometry, x: nat)
    requires g.Valid()
    ensures RingIndex(g, x) == Place(g, Number(g, x))
  {
  }

  lemma WalkModulo(g: Geometry, x: nat, y: nat, coffset: nat, ooffset: nat)
    requires g.Valid() && x <= y && y - x < g.numSubbuf
    ensures
      var visits, d := Visits(g, Place(g, x), Place(g, y), coffset, ooffset), y - x;
      && |visits| == d + 1
      && (forall k :: 0 <= k <= d ==>
            visits[k] == Visit(Place(g, x + k), if k == 0 then coffset else 0,
                               if k < d then 0 else if k == 0 then ooffset - coffset else ooffset))
  {
    hide Visits;
    VisitsShape(g, Place(g, x), Place(g, y), coffset, ooffset);
    AheadIsModulo(x, y - x, g.numSubbuf);
    forall k | 0 <= k <= y - x
      ensures Place(g, x + k) == Ahead(g.numSubbuf, Place(g, x), k)
    {
      AheadIsModulo(x, k, g.numSubbuf);
    }
  }

  // The stream byte at a position: sub-buffer by division, through the ring's
  // two indirections, then page and offset by division.
  function StreamByte(g: Geometry, ring: RingBuffer, x: nat): Byte
    requires g.Valid() && WellFormed(g, ring)
  {
    Bytes(g, SubbufferAt(g, ring, RingIndex(g, x)))[RingOffset(g, x)]
  }

  lemma StreamByteByPage(g: Geometry, ring: RingBuffer, x: nat, page: nat, offset: nat)
    requires g.Valid() && WellFormed(g, ring)
    requires page == RingOffset(g, x) / g.pageSize && offset == RingOffset(g, x) % g.pageSize
    ensures page < g.numPages && offset < g.pageSize
    ensures StreamByte(g, ring, x) == SubbufferAt(g, ring, RingIndex(g, x)).pages[page][offset]
  {
    hide RingIndex, RingOffset;
    ByteByPage(g, SubbufferAt(g, ring, RingIndex(g, x)), RingOffset(g, x), page, offset);
  }

  function Stream(g: Geometry, ring: RingBuffer, lo: nat, hi: nat): (bs: seq<Byte>)
    requires g.Valid() && WellFormed(g, ring) && lo <= hi
    ensures |bs| == hi - lo
  {
    seq<Byte>(hi - lo, i requires 0 <= i < hi - lo => StreamByte(g, ring, lo + i))
  }

  // Where sub-buffer x of the stream starts.
  function SubbufStart(g: Geometry, x: nat): nat {
    Span(g.subbufSize, x)
  }

  // Visit k reads the stream from From(k); its share of it ends at To(k).
  function From(g: Geometry, consumed: nat, k: nat): nat
    requires g.Valid()
  {
    if k == 0 then consumed else SubbufStart(g, Number(g, consumed) + k)
  }

  function To(g: Geometry, consumed: nat, offset: nat, k: nat): nat
    requires g.Valid() && consumed <= offset
  {
    if k < Boundaries(g, consumed, offset) then SubbufStart(g, Number(g, consumed) + k + 1)
    else offset
  }

  lemma Position(g: Geometry, x: nat, o: nat)
    requires g.Valid() && o < g.subbufSize
    ensures Number(g, SubbufStart(g, x) + o) == x
    ensures RingIndex(g, SubbufStart(g, x) + o) == Place(g, x)
    ensures RingOffset(g, SubbufStart(g, x) + o) == o
  {
    SpanIsProduct(g.subbufSize, x);
    DivModUnique(SubbufStart(g, x) + o, g.subbufSize, x, o);
  }

  lemma Located(g: Geometry, x: nat)
    requires g.Valid()
    ensures SubbufStart(g, Number(g, x)) + RingOffset(g, x) == x
  {
    PageOf(g.subbufSize, x);
  }

  // Whatever a visit dumps is the stream from its start on.
  lemma RawIsStream(g: Geometry, ring: RingBuffer, x: nat, coffset: nat, length: int)
    requires g.Valid() && WellFormed(g, ring) && coffset < g.subbufSize
    ensures
      var raw := Raw(g, ring, Place(g, x), coffset, length);
      var lo := SubbufStart(g, x) + coffset;
      raw == Stream(g, ring, lo, lo + |raw|)
  {
    hide IsPow2, Pow256, Span, WellFormed, Bytes, RingIndex, RingOffset, HotSize;
    var raw := Raw(g, ring, Place(g, x), coffset, length);
    var lo := SubbufStart(g, x) + coffset;
    forall i | 0 <= i < |raw|
      ensures raw[i] == StreamByte(g, ring, lo + i)
    {
      Position(g, x, coffset + i);
    }
  }

  // Has sub-buffer k of the walk as much data as the walk wants of it?  The
  // walk wants all of a passed sub-buffer and the last one up to the offset;
  // when that is nothing it takes everything, so there must be nothing.
  ghost predicate FilledAt(g: Geometry, ring: RingBuffer, consumed: nat, offset: nat, k: nat)
    requires g.Valid() && WellFormed(g, ring) && consumed <= offset
    requires k <= Boundaries(g, consumed, offset) < g.numSubbuf
  {
    var v := VisitAt(g, consumed, offset, k);
    var size := HotSize(g, ring, v.cidx);
    if k < Boundaries(g, consumed, offset) then size >= g.subbufSize - v.coffset
    else if v.length > 0 then size >= v.length
    else size == 0
  }

  lemma ShareBounds(g: Geometry, consumed: nat, offset: nat, k: nat)
    requires g.Valid() && consumed <= offset && k <= Boundaries(g, consumed, offset) < g.numSubbuf
    ensures
      var v := VisitAt(g, consumed, offset, k);
      && v.coffset < g.subbufSize
      && From(g, consumed, k) == SubbufStart(g, Number(g, consumed) + k) + v.coffset
      && From(g, consumed, k) <= To(g, consumed, offset, k)
      && To(g, consumed, offset, k) - From(g, consumed, k)
         == if k < Boundaries(g, consumed, offset) then g.subbufSize - v.coffset else v.length
  {
    hide IsPow2, Pow256, RingOffset;
    Located(g, consumed);
    Located(g, offset);
    DivMonotone(consumed, offset, g.subbufSize);
  }

  // Visit k dumps the stream from From(k) on, and exactly its share of it if
  // and only if the sub-buffer is filled far enough.
  lemma ShareExact(g: Geometry, ring: RingBuffer, consumed: nat, offset: nat, k: nat)
    requires g.Valid() && WellFormed(g, ring) && consumed <= offset
    requires k <= Boundaries(g, consumed, offset) < g.numSubbuf
    ensures ValidVisit(g, VisitAt(g, consumed, offset, k))
    ensures From(g, consumed, k) <= To(g, consumed, offset, k)
    ensures RawOf(g, ring, VisitAt(g, consumed, offset, k))
         == Stream(g, ring, From(g, consumed, k), To(g, consumed, offset, k))
      <==> FilledAt(g, ring, consumed, offset, k)
  {
    hide Geometry.Valid, WellFormed, From, To, HotSize, Stream, Bytes;
    var v, x := VisitAt(g, consumed, offset, k), Number(g, consumed) + k;
    ShareBounds(g, consumed, offset, k);
    RawIsStream(g, ring, x, v.coffset, v.length);
  }

  ghost predicate Filled(g: Geometry, ring: RingBuffer, consumed: nat, offset: nat)
    requires g.Valid() && WellFormed(g, ring)
    requires consumed <= offset && Boundaries(g, consumed, offset) < g.numSubbuf
  {
    forall k :: 0 <= k <= Boundaries(g, consumed, offset) ==> FilledAt(g, ring, consumed, offset, k)
  }

  function Concat(raws: seq<seq<Byte>>): seq<Byte> {
    if raws == [] then [] else Concat(raws[..|raws| - 1]) + raws[|raws| - 1]
  }

  // The dump takes exactly its share of the stream out of every sub-buffer it
  // visits if and only if they are filled as it expects.
  lemma DumpIsStreamIff(g: Geometry, ring: RingBuffer, consumed: nat, offset: nat, w: nat)
    requires g.Valid() && WellFormed(g, ring)
    requires consumed <= offset && Observed(g, ring, consumed, offset, w)
    requires Boundaries(g, consumed, offset) < g.numSubbuf
    ensures |BufferRaws(g, ring)| == Boundaries(g, consumed, offset) + 1
    ensures forall k :: 0 <= k < |BufferRaws(g, ring)| ==>
      From(g, consumed, k) <= To(g, consumed, offset, k)
    ensures (forall k :: 0 <= k < |BufferRaws(g, ring)| ==>
               BufferRaws(g, ring)[k]
               == Stream(g, ring, From(g, consumed, k), To(g, consumed, offset, k)))
      <==> Filled(g, ring, consumed, offset)
  {
    hide Geometry.Valid, WellFormed, From, To, Stream, Boundaries, FilledAt, RawOf;
    WrapSafety(g, ring, consumed, offset, w);
    forall k | 0 <= k <= Boundaries(g, consumed, offset)
      ensures From(g, consumed, k) <= To(g, consumed, offset, k)
      ensures BufferRaws(g, ring)[k] == Stream(g, ring, From(g, consumed, k), To(g, consumed, offset, k))
        <==> FilledAt(g, ring, consumed, offset, k)
    {
      ShareExact(g, ring, consumed, offset, k);
    }
  }

  // Then the packets together hold the stream from consumed to offset.
  lemma DumpIsStream(g: Geometry, ring: RingBuffer, consumed: nat, offset: nat, w: nat)
    requires g.Valid() && WellFormed(g, ring)
    requires consumed <= offset && Observed(g, ring, consumed, offset, w)
    requires Boundaries(g, consumed, offset) < g.numSubbuf
    requires Filled(g, ring, consumed, offset)
    ensures Concat(BufferRaws(g, ring)) == Stream(g, ring, consumed, offset)
  {
    DumpIsStreamIff(g, ring, consumed, offset, w);
    var d := Boundaries(g, consumed, offset);
    assert BufferRaws(g, ring) == BufferRaws(g, ring)[..d + 1];
    PrefixIsStream(g, ring, consumed, offset, BufferRaws(g, ring), d);
  }

  lemma {:induction false} PrefixIsStream(g: Geometry, ring: RingBuffer, consumed: nat, offset: nat,
                                          raws: seq<seq<Byte>>, k: nat)
    requires g.Valid() && WellFormed(g, ring) && consumed <= offset
    requires k < |raws| == Boundaries(g, consumed, offset) + 1
    requires forall j :: 0 <= j < |raws| ==>
      From(g, consumed, j) <= To(g, consumed, offset, j)
      && raws[j] == Stream(g, ring, From(g, consumed, j), To(g, consumed, offset, j))
    ensures consumed <= To(g, consumed, offset, k)
    ensures Concat(raws[..k + 1]) == Stream(g, ring, consumed, To(g, consumed, offset, k))
  {
    hide WellFormed, StreamByte, Boundaries, SubbufStart, Geometry.Valid;
    assert raws[..k + 1][..k] == raws[..k];
    if k > 0 {
      PrefixIsStream(g, ring, consumed, offset, raws, k - 1);
      assert To(g, consumed, offset, k - 1) == From(g, consumed, k);
      StreamSplit(g, ring, consumed, From(g, consumed, k), To(g, consumed, offset, k));
    } else {
      assert raws[..1] == [raws[0]];
      assert Concat([raws[0]]) == [] + raws[0];
    }
  }

  lemma StreamSplit(g: Geometry, ring: RingBuffer, a: nat, b: nat, c: nat)
    requires g.Valid() && WellFormed(g, ring) && a <= b <= c
    ensures Stream(g, ring, a, c) == Stream(g, ring, a, b) + Stream(g, ring, b, c)
  {
    hide StreamByte;
  }

  // A limit of zero is no limit: when the offset is at the start of the last
  // visited sub-buffer (or where consumed is), the walk wants nothing of it,
  // and yet takes whatever an earlier round left there.
  lemma StaleDataDumped(g: Geometry, ring: RingBuffer, consumed: nat, offset: nat, w: nat)
    requires g.Valid() && WellFormed(g, ring)
    requires consumed <= offset && Observed(g, ring, consumed, offset, w)
    requires Boundaries(g, consumed, offset) < g.numSubbuf
    requires
      var last := VisitAt(g, consumed, offset, Boundaries(g, consumed, offset));
      last.length == 0 && HotSize(g, ring, last.cidx) > 0
    ensures
      var d := Boundaries(g, consumed, offset);
      From(g, consumed, d) == To(g, consumed, offset, d)
      && |BufferRaws(g, ring)| == d + 1 && BufferRaws(g, ring)[d] != []
  {
    hide HotSize, Bytes, WellFormed;
    var d := Boundaries(g, consumed, offset);
    WrapSafety(g, ring, consumed, offset, w);
    ShareBounds(g, consumed, offset, d);
  }

  lemma {:induction false} ConcatFromFront(first: seq<Byte>, rest: seq<seq<Byte>>)
    ensures Concat([first] + rest) == first + Concat(rest)
    decreases |rest|
  {
    if rest == [] {
      assert [first] + rest == [first];
      assert Concat([first]) == [] + first;
    } else {
      var init := rest[..|rest| - 1];
      assert ([first] + rest)[..|rest|] == [first] + init;
      ConcatFromFront(first, init);
    }
  }

  lemma {:induction false} NonemptyConcat(raws: seq<seq<Byte>>)
    ensures Concat(Nonempty(raws)) == Concat(raws)
  {
    if raws != [] {
      NonemptyConcat(raws[1..]);
      ConcatFromFront(raws[0], raws[1..]);
      assert raws == [raws[0]] + raws[1..];
      if raws[0] != [] {
        ConcatFromFront(raws[0], Nonempty(raws[1..]));
      } else {
        assert Nonempty(raws) == Nonempty(raws[1..]);
      }
    }
  }

  // The whole way: reading the file of a buffer gives packets that, up to the
  // header fields that are filled in, cut the stream from consumed to offset
  // into pieces.
  lemma FileHoldsStream(g: Geometry, ring: RingBuffer, consumed: nat, offset: nat, w: nat)
    returns (views: seq<PacketView>, pieces: seq<seq<Byte>>)
    requires g.Valid() && WellFormed(g, ring)
    requires consumed <= offset && Observed(g, ring, consumed, offset, w)
    requires Boundaries(g, consumed, offset) < g.numSubbuf
    requires Filled(g, ring, consumed, offset)
    ensures ReadPackets(PacketFile(g, BufferRaws(g, ring)), 0, g.little) == Some(views)
    ensures Concat(pieces) == Stream(g, ring, consumed, offset)
    ensures |views| == |pieces|
    ensures forall i :: 0 <= i < |views| ==> |views[i].content| == |pieces[i]|
    ensures forall i, k :: 0 <= i < |views| && 0 <= k < |pieces[i]| && !(40 <= k < 64) ==>
      views[i].content[k] == pieces[i][k]
  {
    hide Filled, Stream, ReadPackets, BufferRaws, PacketFile, Views, Observed, Boundaries, WellFormed;
    pieces := Nonempty(BufferRaws(g, ring));
    views := Views(g, pieces, 0);
    PacketFileRoundTrip(g, ring);
    DumpIsStream(g, ring, consumed, offset, w);
    NonemptyConcat(BufferRaws(g, ring));
    forall i | 0 <= i < |views|
      ensures |views[i].content| == |pieces[i]|
      ensures forall k :: 0 <= k < |pieces[i]| && !(40 <= k < 64) ==> views[i].content[k] == pieces[i][k]
    {
      ContentIsRaw(g, pieces, 0, i);
    }
  }
}
