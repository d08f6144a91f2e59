// A reader of channel files, and what it finds in a dump.
module LttPackets {
  import opened Bits
  import opened Endian
  import opened LttRing
  import opened LttDump
  import opened Common

  // A packet as a trace reader sees it: where it starts, how long it is, and
  // the content its header announces.
  datatype PacketView = PacketView(start: nat, size: nat, content: seq<Byte>)

  function Field(file: seq<Byte>, pos: nat, little: bool): nat
    requires pos + 8 <= |file|
  {
    Decode(file[pos..pos + 8], little)
  }

  // Jumps from packet to packet by the packet size (in bits) at 56; the
  // content size (in bits) is at 48.  The last packet must end the file.
  function ReadPackets(file: seq<Byte>, start: nat, little: bool): Option<seq<PacketView>>
    requires start <= |file|
    decreases |file| - start
  {
    if start == |file| then Some([])
    else if start + 64 > |file| then None
    else
      var size, content := Field(file, start + 56, little) / 8, Field(file, start + 48, little) / 8;
      if size == 0 || start + size > |file| || content > size then None
      else
        match ReadPackets(file, start + size, little)
        case None => None
        case Some(rest) => Some([PacketView(start, size, file[start..start + content])] + rest)
  }

  function Nonempty(raws: seq<seq<Byte>>): (r: seq<seq<Byte>>)
    ensures forall i :: 0 <= i < |r| ==> r[i] != []
  {
    if raws == [] then []
    else (if raws[0] == [] then [] else [raws[0]]) + Nonempty(raws[1..])
  }

  // The packets of a dump, the first one at start.
  function Views(g: Geometry, raws: seq<seq<Byte>>, start: nat): (views: seq<PacketView>)
    requires g.Valid() && forall i :: 0 <= i < |raws| ==> raws[i] != []
    ensures |views| == |raws|
  {
    if raws == [] then []
    else
      var packet := Packet(g, raws[0]);
      AlignRoundsUp(|raws[0]|, g.pageSize);
      [PacketView(start, |packet|, packet[..|raws[0]|])] + Views(g, raws[1..], start + |packet|)
  }

  // The header of a packet gives back its content and packet sizes.
  lemma HeaderFields(g: Geometry, raw: seq<Byte>)
    requires g.Valid() && 0 < |raw| <= g.subbufSize
    ensures |raw| <= |Packet(g, raw)| && 64 <= |Packet(g, raw)|
    ensures Field(Packet(g, raw), 48, g.little) == 8 * |raw|
    ensures Field(Packet(g, raw), 56, g.little) == 8 * |Packet(g, raw)|
  {
    hide Pow256, Encode, Decode;
    var p := g.pageSize;
    AlignRoundsUp(|raw|, p);
    var padded := Align(|raw|, p);
    PaddedFits(g, |raw|);
    DecodeEncode(|raw| * 8, 8, g.little);
    DecodeEncode(padded * 8, 8, g.little);
    var body := raw + Zeros(padded - |raw|);
    PatchedFields(body, |raw|, padded, g.little);
  }

  // Byte k of data that counts as continued by zeros.
  function ByteOrZero(raw: seq<Byte>, k: nat): Byte {
    if k < |raw| then raw[k] else 0
  }

  // The end time stamp is never zero: one that was is replaced by the largest.
  // It is that of the data, in which missing bytes count as zero.
  lemma EndTimeStamp(g: Geometry, raw: seq<Byte>)
    requires g.Valid() && raw != []
    ensures |Packet(g, raw)| >= 64
    ensures
      var stamp := Decode(seq(8, i requires 0 <= i < 8 => ByteOrZero(raw, 40 + i)), g.little);
      Field(Packet(g, raw), 40, g.little) == if stamp == 0 then 0xffff_ffff_ffff_ffff else stamp
  {
    hide Encode, Decode, Align;
    PacketIsPatched(g, raw);
    var body := raw + Zeros(Align(|raw|, g.pageSize) - |raw|);
    assert body[40..48] == seq(8, i requires 0 <= i < 8 => ByteOrZero(raw, 40 + i));
    MaxFits(g.little);
    StampField(body, |raw|, |body|, g.little);
  }

  // What pads a packet behind its data is zero, outside the header.
  lemma PaddingIsZero(g: Geometry, raw: seq<Byte>, k: nat)
    requires g.Valid() && raw != [] && |raw| <= k < |Packet(g, raw)| && !(40 <= k < 64)
    ensures Packet(g, raw)[k] == 0
  {
    hide Encode, Decode, Align, Patched;
    PacketIsPatched(g, raw);
    var body := raw + Zeros(Align(|raw|, g.pageSize) - |raw|);
    PatchedFields(body, |raw|, |body|, g.little);
    assert body[k] == 0;
  }

  lemma MaxFits(little: bool)
    ensures Decode(Encode(MAX_TSC, 8, little), little) == MAX_TSC
  {
    DecodeEncode(MAX_TSC, 8, little);
  }

  lemma StampField(body: seq<Byte>, written: nat, padded: nat, little: bool)
    requires |body| >= 64
    ensures Patched(body, written, padded, little)[40..48]
         == if Decode(body[40..48], little) == 0 then Encode(MAX_TSC, 8, little) else body[40..48]
  {
    hide Decode, Encode;
  }

  lemma PatchedFields(body: seq<Byte>, written: nat, padded: nat, little: bool)
    requires |body| >= 64
    ensures Patched(body, written, padded, little)[48..56] == Encode(written * 8, 8, little)
    ensures Patched(body, written, padded, little)[56..64] == Encode(padded * 8, 8, little)
    ensures forall k :: 0 <= k < |body| && !(40 <= k < 64) ==>
      Patched(body, written, padded, little)[k] == body[k]
    ensures Decode(body[40..48], little) != 0 ==>
      forall k :: 40 <= k < 48 ==> Patched(body, written, padded, little)[k] == body[k]
  {
    hide Decode, Encode;
  }

  // A sub-buffer is a whole number of pages, so padding stays inside it.
  lemma PaddedFits(g: Geometry, n: nat)
    requires g.Valid() && n <= g.subbufSize
    ensures Align(n, g.pageSize) <= g.subbufSize
  {
    SpanIsProduct(g.pageSize, g.numPages);
    DivModUnique(g.subbufSize, g.pageSize, g.numPages, 0);
    AlignIsLeast(n, g.pageSize, g.subbufSize);
  }

  ghost predicate Dumpable(g: Geometry, raws: seq<seq<Byte>>) {
    forall i :: 0 <= i < |raws| ==> |raws[i]| <= g.subbufSize
  }

  lemma {:induction false} ReadFrom(g: Geometry, before: seq<Byte>, raws: seq<seq<Byte>>)
    requires g.Valid() && Dumpable(g, raws)
    ensures ReadPackets(before + PacketFile(g, raws), |before|, g.little)
         == Some(Views(g, Nonempty(raws), |before|))
    decreases |raws|
  {
    hide *;
    if raws == [] {
      NothingToRead(g, before);
    } else {
      RawsStep(g, raws);
      if raws[0] == [] {
        ReadFrom(g, before, raws[1..]);
      } else {
        var raw, rest := raws[0], PacketFile(g, raws[1..]);
        var packet := Packet(g, raw);
        assert before + (packet + rest) == before + packet + rest;
        HeaderFields(g, raw);
        ReadOne(before, packet, rest, g.little, |raw|);
        ReadFrom(g, before + packet, raws[1..]);
        ViewsCons(g, raw, Nonempty(raws[1..]), |before|);
      }
    }
  }

  lemma NothingToRead(g: Geometry, before: seq<Byte>)
    requires g.Valid()
    ensures ReadPackets(before + PacketFile(g, []), |before|, g.little) == Some(Views(g, Nonempty([]), |before|))
  {
    assert before + [] == before;
  }

  lemma RawsStep(g: Geometry, raws: seq<seq<Byte>>)
    requires g.Valid() && Dumpable(g, raws) && raws != []
    ensures Dumpable(g, raws[1..]) && |raws[0]| <= g.subbufSize
    ensures raws[0] == [] ==>
      PacketFile(g, raws) == PacketFile(g, raws[1..]) && Nonempty(raws) == Nonempty(raws[1..])
    ensures raws[0] != [] ==>
      PacketFile(g, raws) == Packet(g, raws[0]) + PacketFile(g, raws[1..])
      && Nonempty(raws) == [raws[0]] + Nonempty(raws[1..])
  {
    hide Packet, Geometry.Valid;
  }

  lemma ViewsCons(g: Geometry, raw: seq<Byte>, rest: seq<seq<Byte>>, start: nat)
    requires g.Valid() && raw != [] && forall i :: 0 <= i < |rest| ==> rest[i] != []
    ensures |raw| <= |Packet(g, raw)|
    ensures Views(g, [raw] + rest, start)
         == [PacketView(start, |Packet(g, raw)|, Packet(g, raw)[..|raw|])]
            + Views(g, rest, start + |Packet(g, raw)|)
  {
    hide Packet, Geometry.Valid, Align;
    PacketIsPatched(g, raw);
    assert ([raw] + rest)[1..] == rest;
  }

  // The reader takes one packet and goes on behind it.
  lemma ReadOne(before: seq<Byte>, packet: seq<Byte>, rest: seq<Byte>, little: bool, content: nat)
    requires content <= |packet| && |packet| >= 64
    requires Field(packet, 48, little) == 8 * content
    requires Field(packet, 56, little) == 8 * |packet|
    ensures ReadPackets(before + packet + rest, |before|, little)
         == match ReadPackets(before + packet + rest, |before + packet|, little)
            case None => None
            case Some(views) => Some([PacketView(|before|, |packet|, packet[..content])] + views)
  {
    hide Field;
    FieldInside(before, packet, rest, 48, little);
    FieldInside(before, packet, rest, 56, little);
    var file := before + packet + rest;
    assert file[|before|..|before| + content] == packet[..content];
  }

  lemma FieldInside(before: seq<Byte>, packet: seq<Byte>, rest: seq<Byte>, at: nat, little: bool)
    requires at + 8 <= |packet|
    ensures Field(before + packet + rest, |before| + at, little) == Field(packet, at, little)
  {
    assert (before + packet + rest)[|before| + at..|before| + at + 8] == packet[at..at + 8];
  }

  lemma RawsFit(g: Geometry, ring: RingBuffer)
    requires g.Valid() && WellFormed(g, ring)
    ensures Dumpable(g, BufferRaws(g, ring))
  {
  }

  // Walking the file of one buffer by packet sizes visits exactly the packets
  // written for its sub-buffers and stops exactly at the end of the file.
  lemma PacketFileRoundTrip(g: Geometry, ring: RingBuffer)
    requires g.Valid() && WellFormed(g, ring)
    ensures ReadPackets(PacketFile(g, BufferRaws(g, ring)), 0, g.little)
         == Some(Views(g, Nonempty(BufferRaws(g, ring)), 0))
  {
    RawsFit(g, ring);
    ReadFrom(g, [], BufferRaws(g, ring));
    assert [] + PacketFile(g, BufferRaws(g, ring)) == PacketFile(g, BufferRaws(g, ring));
  }

  // Content that is the bytes taken out of the ring, except for the time stamp
  // (if it was zero) and the two sizes.
  ghost predicate HoldsRaw(content: seq<Byte>, raw: seq<Byte>, little: bool) {
    && |content| == |raw|
    && (forall k :: 0 <= k < |content| && !(40 <= k < 64) ==> content[k] == raw[k])
    && (|raw| >= 48 && Decode(raw[40..48], little) != 0 ==> content[40..48] == raw[40..48])
  }

  // Packet i of a dump holds them.
  lemma {:induction false} ContentIsRaw(g: Geometry, raws: seq<seq<Byte>>, start: nat, i: nat)
    requires g.Valid() && i < |raws| && forall j :: 0 <= j < |raws| ==> raws[j] != []
    ensures HoldsRaw(Views(g, raws, start)[i].content, raws[i], g.little)
  {
    hide *;
    ViewsStep(g, raws, start);
    if i > 0 {
      var packet := Packet(g, raws[0]);
      assert Views(g, raws, start)[i] == Views(g, raws, start)[1..][i - 1];
      ContentIsRaw(g, raws[1..], start + |packet|, i - 1);
    } else {
      FirstContent(g, raws[0]);
    }
  }

  lemma {:induction false} ViewsStep(g: Geometry, raws: seq<seq<Byte>>, start: nat)
    requires g.Valid() && raws != [] && forall j :: 0 <= j < |raws| ==> raws[j] != []
    ensures |Views(g, raws, start)| == |raws| && |raws[0]| <= |Packet(g, raws[0])|
    ensures Views(g, raws, start)[0]
         == PacketView(start, |Packet(g, raws[0])|, Packet(g, raws[0])[..|raws[0]|])
    ensures Views(g, raws, start)[1..] == Views(g, raws[1..], start + |Packet(g, raws[0])|)
  {
    hide Packet, Geometry.Valid, Align;
    PacketIsPatched(g, raws[0]);
  }

  lemma FirstContent(g: Geometry, raw: seq<Byte>)
    requires g.Valid() && raw != []
    ensures |raw| <= |Packet(g, raw)| && HoldsRaw(Packet(g, raw)[..|raw|], raw, g.little)
  {
    hide Packet, Patched, Encode, Decode, Align;
    PacketIsPatched(g, raw);
    var body := raw + Zeros(Align(|raw|, g.pageSize) - |raw|);
    var packet := Packet(g, raw);
    PatchedFields(body, |raw|, |body|, g.little);
    forall k | 0 <= k < |raw| && !(40 <= k < 64)
      ensures packet[..|raw|][k] == raw[k]
    {
      assert packet[k] == body[k] == raw[k];
    }
    if |raw| >= 48 {
      assert body[40..48] == raw[40..48];
      assert packet[..|raw|][40..48] == packet[40..48];
    }
  }

  // In the file packet i stands where its view says.
  lemma {:induction false} PacketInFile(g: Geometry, before: seq<Byte>, raws: seq<seq<Byte>>, i: nat)
    requires g.Valid() && i < |raws| && forall j :: 0 <= j < |raws| ==> raws[j] != []
    ensures
      var file, view := before + PacketFile(g, raws), Views(g, raws, |before|)[i];
      && view.start + view.size <= |file|
      && file[view.start..view.start + view.size] == Packet(g, raws[i])
    decreases |raws|
  {
    hide *;
    var packet, rest := Packet(g, raws[0]), PacketFile(g, raws[1..]);
    FileStep(g, raws);
    ViewsStep(g, raws, |before|);
    assert before + (packet + rest) == before + packet + rest;
    if i > 0 {
      assert Views(g, raws, |before|)[i] == Views(g, raws, |before|)[1..][i - 1];
      PacketInFile(g, before + packet, raws[1..], i - 1);
    }
  }

  lemma FileStep(g: Geometry, raws: seq<seq<Byte>>)
    requires g.Valid() && raws != [] && raws[0] != []
    ensures PacketFile(g, raws) == Packet(g, raws[0]) + PacketFile(g, raws[1..])
  {
    hide Packet, Geometry.Valid;
  }

  // Packets start at page boundaries and follow one another without gaps.
  lemma {:induction false} PacketsAligned(g: Geometry, raws: seq<seq<Byte>>, start: nat, i: nat)
    requires g.Valid() && i < |raws| && forall j :: 0 <= j < |raws| ==> raws[j] != []
    requires start % g.pageSize == 0
    ensures
      var views := Views(g, raws, start);
      views[i].start % g.pageSize == 0 && views[i].size % g.pageSize == 0
      && |raws[i]| <= views[i].size < |raws[i]| + g.pageSize
      && (i + 1 < |raws| ==> views[i + 1].start == views[i].start + views[i].size)
  {
    AlignRoundsUp(|raws[0]|, g.pageSize);
    var next := start + |Packet(g, raws[0])|;
    SumOfMultiples(start, |Packet(g, raws[0])|, g.pageSize);
    if i > 0 {
      PacketsAligned(g, raws[1..], next, i - 1);
    }
  }

  lemma SumOfMultiples(x: nat, y: nat, a: nat)
    requires a > 0 && x % a == 0 && y % a == 0
    ensures (x + y) % a == 0
  {
    DivModUnique(x + y, a, x / a + y / a, 0);
  }
}
