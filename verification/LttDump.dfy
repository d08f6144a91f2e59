// The dumpltt command: one packet per visited sub-buffer, appended to the
// file of its CPU, padded to a page, then patched in place.
module LttDump {
  import opened Bits
  import opened Endian
  import opened LttRing

  const MAX_TSC: nat := 0xffff_ffff_ffff_ffff

  function Zeros(n: nat): (z: seq<Byte>)
    ensures |z| == n
  {
    seq(n, _ => 0)
  }

  // Writing at a file position: past the end the gap reads as zeros.
  function WriteAt(file: seq<Byte>, pos: nat, bs: seq<Byte>): (f: seq<Byte>)
    ensures pos + |bs| <= |file| ==> |f| == |file|
  {
    var base := if |file| < pos then file + Zeros(pos - |file|) else file;
    base[..pos] + bs + (if pos + |bs| < |base| then base[pos + |bs|..] else [])
  }

  // Byte by byte: what is written, around it what was there, and zeros between.
  lemma WriteAtMeans(file: seq<Byte>, pos: nat, bs: seq<Byte>, k: nat)
    requires bs != []
    ensures |WriteAt(file, pos, bs)| == if pos + |bs| < |file| then |file| else pos + |bs|
    ensures k < |WriteAt(file, pos, bs)| ==>
      WriteAt(file, pos, bs)[k]
      == if pos <= k < pos + |bs| then bs[k - pos] else if k < |file| then file[k] else 0
  {
  }

  // How many bytes dump_subbuffer finds from start, size being asked for.
  function DumpCount(g: Geometry, start: nat, size: nat): (n: nat)
    ensures n > 0 ==> start + n <= g.subbufSize
  {
    if start >= g.subbufSize then 0
    else if size < g.subbufSize - start then size
    else g.subbufSize - start
  }

  // n bytes of a sub-buffer from start on.
  function Piece(g: Geometry, sub: Subbuffer, start: nat, n: nat): (bs: seq<Byte>)
    requires g.Paged() && WellFormedSubbuffer(g, sub)
    requires n > 0 ==> start + n <= g.subbufSize
    ensures |bs| == n
  {
    if n == 0 then [] else Bytes(g, sub)[start..start + n]
  }

  // A positive length limits the dump; zero or a negative one does not.
  function DumpSize(g: Geometry, ring: RingBuffer, cidx: nat, length: int): nat
    requires g.Valid() && WellFormed(g, ring) && cidx < g.numSubbuf
  {
    var size := HotSize(g, ring, cidx);
    if 0 < length < size then length else size
  }

  // The bytes one call of handle_subbuffer takes out of the ring.
  function Raw(g: Geometry, ring: RingBuffer, cidx: nat, coffset: nat, length: int): seq<Byte>
    requires g.Valid() && WellFormed(g, ring) && cidx < g.numSubbuf && coffset < g.subbufSize
  {
    Piece(g, SubbufferAt(g, ring, cidx), coffset, DumpCount(g, coffset, DumpSize(g, ring, cidx, length)))
  }

  // A packet body with its time stamp, content size and packet size in place.
  function Patched(body: seq<Byte>, written: nat, padded: nat, little: bool): (packet: seq<Byte>)
    requires |body| >= 64
    ensures |packet| == |body|
  {
    body[..40]
    + (if Decode(body[40..48], little) == 0 then Encode(MAX_TSC, 8, little) else body[40..48])
    + Encode(written * 8, 8, little)
    + Encode(padded * 8, 8, little)
    + body[64..]
  }

  // The packet left in the file for the bytes of one sub-buffer.
  function Packet(g: Geometry, raw: seq<Byte>): (packet: seq<Byte>)
    requires g.Valid() && raw != []
    ensures |packet| == Align(|raw|, g.pageSize)
  {
    AlignRoundsUp(|raw|, g.pageSize);
    var padded := Align(|raw|, g.pageSize);
    Patched(raw + Zeros(padded - |raw|), |raw|, padded, g.little)
  }

  lemma PacketIsPatched(g: Geometry, raw: seq<Byte>)
    requires g.Valid() && raw != []
    ensures
      var padded := Align(|raw|, g.pageSize);
      padded >= |raw| && padded >= 64
      && Packet(g, raw) == Patched(raw + Zeros(padded - |raw|), |raw|, padded, g.little)
  {
    hide Patched, Align, Zeros;
    AlignRoundsUp(|raw|, g.pageSize);
  }

  function PacketOrNothing(g: Geometry, raw: seq<Byte>): seq<Byte>
    requires g.Valid()
  {
    if raw == [] then [] else Packet(g, raw)
  }

  // One call of handle_subbuffer.
  datatype Visit = Visit(cidx: nat, coffset: nat, length: int)

  function Distance(n: nat, from: nat, to: nat): nat
    requires from < n && to < n
  {
    if from <= to then to - from else to + n - from
  }

  // The calls handle_buffer makes, from ring position cidx to oidx.
  function Visits(g: Geometry, cidx: nat, oidx: nat, coffset: nat, ooffset: nat): seq<Visit>
    requires cidx < g.numSubbuf && oidx < g.numSubbuf
    decreases Distance(g.numSubbuf, cidx, oidx)
  {
    if oidx == cidx then [Visit(cidx, coffset, ooffset - coffset)]
    else [Visit(cidx, coffset, 0)] + Visits(g, Next(g, cidx), oidx, 0, ooffset)
  }

  function Next(g: Geometry, cidx: nat): (next: nat)
    requires cidx < g.numSubbuf
    ensures next == if cidx + 1 == g.numSubbuf then 0 else cidx + 1
  {
    (cidx + 1) % g.numSubbuf
  }

  ghost predicate ValidVisit(g: Geometry, v: Visit) {
    v.cidx < g.numSubbuf && v.coffset < g.subbufSize
  }

  function RawOf(g: Geometry, ring: RingBuffer, v: Visit): seq<Byte>
    requires g.Valid() && WellFormed(g, ring) && ValidVisit(g, v)
  {
    Raw(g, ring, v.cidx, v.coffset, v.length)
  }

  function Raws(g: Geometry, ring: RingBuffer, visits: seq<Visit>): (raws: seq<seq<Byte>>)
    requires g.Valid() && WellFormed(g, ring)
    requires forall v :: v in visits ==> ValidVisit(g, v)
    ensures |raws| == |visits|
    ensures forall k :: 0 <= k < |visits| ==> raws[k] == RawOf(g, ring, visits[k])
  {
    if visits == [] then [] else [RawOf(g, ring, visits[0])] + Raws(g, ring, visits[1..])
  }

  // Packets end to end; sub-buffers without data leave none.
  function PacketFile(g: Geometry, raws: seq<seq<Byte>>): seq<Byte>
    requires g.Valid()
  {
    if raws == [] then [] else PacketOrNothing(g, raws[0]) + PacketFile(g, raws[1..])
  }

  // The ring position and sub-buffer offset of a counter value.
  function RingIndex(g: Geometry, counter: int): (i: nat)
    requires g.Valid()
    ensures i < g.numSubbuf
  {
    (counter / g.subbufSize) % g.numSubbuf
  }

  function RingOffset(g: Geometry, counter: int): (o: nat)
    requires g.Valid()
    ensures o < g.subbufSize
  {
    counter % g.subbufSize
  }

  function BufferVisits(g: Geometry, ring: RingBuffer): (visits: seq<Visit>)
    requires g.Valid()
    ensures forall v :: v in visits ==> ValidVisit(g, v)
  {
    VisitsValid(g, RingIndex(g, ring.consumed), RingIndex(g, ring.offset),
                RingOffset(g, ring.consumed), RingOffset(g, ring.offset));
    Visits(g, RingIndex(g, ring.consumed), RingIndex(g, ring.offset),
           RingOffset(g, ring.consumed), RingOffset(g, ring.offset))
  }

  lemma VisitsValid(g: Geometry, cidx: nat, oidx: nat, coffset: nat, ooffset: nat)
    requires g.Valid() && cidx < g.numSubbuf && oidx < g.numSubbuf && coffset < g.subbufSize
    ensures forall v :: v in Visits(g, cidx, oidx, coffset, ooffset) ==> ValidVisit(g, v)
    decreases Distance(g.numSubbuf, cidx, oidx)
  {
    if oidx != cidx {
      VisitsValid(g, Next(g, cidx), oidx, 0, ooffset);
    }
  }

  // What handle_buffer takes out of the ring, and what it appends for it.
  function BufferRaws(g: Geometry, ring: RingBuffer): seq<seq<Byte>>
    requires g.Valid() && WellFormed(g, ring)
  {
    Raws(g, ring, BufferVisits(g, ring))
  }

  // The channel files after bs has been appended for cpu, creating the file
  // if there is something to append.
  function Extended(files: map<nat, seq<Byte>>, cpu: nat, bs: seq<Byte>): map<nat, seq<Byte>> {
    if bs == [] then files
    else files[cpu := (if cpu in files then files[cpu] else []) + bs]
  }

  lemma ExtendedByNothing(files: map<nat, seq<Byte>>, cpu: nat)
    ensures Extended(files, cpu, []) == files
  {
  }

  // The same, creating the file in any case.
  function Appended(files: map<nat, seq<Byte>>, cpu: nat, bs: seq<Byte>): map<nat, seq<Byte>> {
    files[cpu := (if cpu in files then files[cpu] else []) + bs]
  }

  lemma AppendedTwice(files: map<nat, seq<Byte>>, cpu: nat, a: seq<Byte>, b: seq<Byte>)
    ensures Appended(Appended(files, cpu, a), cpu, b) == Appended(files, cpu, a + b)
  {
    var held := if cpu in files then files[cpu] else [];
    assert (held + a) + b == held + (a + b);
  }

  // n more bytes, from page i, after written bytes from start on.
  lemma PageStep(g: Geometry, sub: Subbuffer, files: map<nat, seq<Byte>>, cpu: nat, start: nat,
                 written: nat, i: nat, startOffset: nat, n: nat)
    requires g.Paged() && WellFormedSubbuffer(g, sub)
    requires i < g.numPages && startOffset + n <= g.pageSize
    requires Span(g.pageSize, i) + startOffset == start + written
    ensures start + written + n <= g.subbufSize
    ensures Extended(Extended(files, cpu, Piece(g, sub, start, written)), cpu,
                     sub.pages[i][startOffset..startOffset + n])
         == Extended(files, cpu, Piece(g, sub, start, written + n))
  {
    hide Bytes;
    PageSlice(g, sub, i, startOffset, startOffset + n);
    var all := Bytes(g, sub);
    assert all[start..start] == [];
    var a, b := all[start..start + written], all[start + written..start + written + n];
    assert all[start..start + written + n] == a + b;
    var held := if cpu in files then files[cpu] else [];
    assert (held + a) + b == held + (a + b);
  }

  lemma PageBound(g: Geometry, i: nat)
    requires g.Paged()
    ensures i < g.numPages ==> Span(g.pageSize, i) + g.pageSize <= g.subbufSize
    ensures i >= g.numPages ==> Span(g.pageSize, i) >= g.subbufSize
    ensures Span(g.pageSize, i + 1) == Span(g.pageSize, i) + g.pageSize
  {
    if i < g.numPages {
      SpanMonotone(g.pageSize, i + 1, g.numPages);
    } else {
      SpanMonotone(g.pageSize, g.numPages, i);
    }
  }

  // What handle_buffer still has to append from ring position cidx on.
  function RestOfFile(g: Geometry, ring: RingBuffer, cidx: nat, oidx: nat, coffset: nat, ooffset: nat)
    : seq<Byte>
    requires g.Valid() && WellFormed(g, ring)
    requires cidx < g.numSubbuf && oidx < g.numSubbuf && coffset < g.subbufSize
  {
    VisitsValid(g, cidx, oidx, coffset, ooffset);
    PacketFile(g, Raws(g, ring, Visits(g, cidx, oidx, coffset, ooffset)))
  }

  lemma WholeFile(g: Geometry, ring: RingBuffer)
    requires g.Valid() && WellFormed(g, ring)
    ensures RestOfFile(g, ring, RingIndex(g, ring.consumed), RingIndex(g, ring.offset),
                       RingOffset(g, ring.consumed), RingOffset(g, ring.offset))
         == PacketFile(g, BufferRaws(g, ring))
  {
  }

  lemma RestStep(g: Geometry, ring: RingBuffer, cidx: nat, oidx: nat, coffset: nat, ooffset: nat)
    requires g.Valid() && WellFormed(g, ring)
    requires cidx < g.numSubbuf && oidx < g.numSubbuf && coffset < g.subbufSize
    ensures RestOfFile(g, ring, cidx, oidx, coffset, ooffset) ==
      if oidx == cidx then PacketOrNothing(g, Raw(g, ring, cidx, coffset, ooffset - coffset))
      else PacketOrNothing(g, Raw(g, ring, cidx, coffset, 0))
           + RestOfFile(g, ring, Next(g, cidx), oidx, 0, ooffset)
  {
    VisitsValid(g, cidx, oidx, coffset, ooffset);
    var visits := Visits(g, cidx, oidx, coffset, ooffset);
    assert Raws(g, ring, visits)[1..] == Raws(g, ring, visits[1..]);
    assert PacketFile(g, Raws(g, ring, visits))
        == PacketOrNothing(g, RawOf(g, ring, visits[0])) + PacketFile(g, Raws(g, ring, visits[1..]));
    if oidx != cidx {
      VisitsValid(g, Next(g, cidx), oidx, 0, ooffset);
      assert visits[1..] == Visits(g, Next(g, cidx), oidx, 0, ooffset);
    }
  }

  lemma UpdateTwice<K, V>(m: map<K, V>, k: K, u: V, v: V)
    ensures m[k := u][k := v] == m[k := v]
  {
  }

  lemma ZerosEnd(s: seq<Byte>, n: nat, t: seq<Byte>)
    requires |t| == |s| + n && s <= t && forall k :: |s| <= k < |t| ==> t[k] == 0
    ensures t == s + Zeros(n)
  {
  }

  // Dumped bytes and then padding, at the end of a file that held before.
  lemma DumpedAndPadded(files: map<nat, seq<Byte>>, cpu: nat, before: seq<Byte>, raw: seq<Byte>, n: nat)
    requires raw != []
    ensures
      var dumped := Extended(files[cpu := before], cpu, raw);
      cpu in dumped && dumped[cpu] == before + raw
      && dumped[cpu := dumped[cpu] + Zeros(n)] == files[cpu := before + (raw + Zeros(n))]
  {
    UpdateTwice(files, cpu, before, before + raw);
    UpdateTwice(files, cpu, before + raw, before + raw + Zeros(n));
    assert before + raw + Zeros(n) == before + (raw + Zeros(n));
  }

  class Dumper {
    const g: Geometry
    // The channel files of the dump directory, by CPU.
    var files: map<nat, seq<Byte>>

    constructor (g: Geometry)
      ensures this.g == g && files == map[]
    {
      this.g := g;
      files := map[];
    }

    function Contents(cpu: nat): seq<Byte>
      reads this
    {
      if cpu in files then files[cpu] else []
    }

    method DumpPage(cpu: nat, page: seq<Byte>, start: nat, size: nat)
      requires start + size <= |page|
      modifies this
      ensures files == Extended(old(files), cpu, page[start..start + size])
    {
      if size == 0 {
        return;
      }
      files := files[cpu := Contents(cpu) + page[start..start + size]];
    }

    // The page holding an offset, and the place in it.
    method Locate(start: nat) returns (page: nat, offset: nat)
      requires g.Paged()
      ensures offset < g.pageSize && Span(g.pageSize, page) + offset == start
    {
      PageOf(g.pageSize, start);
      page, offset := start / g.pageSize, start % g.pageSize;
    }

    // Walks the pages from the one holding start.
    method DumpSubbuffer(cpu: nat, sub: Subbuffer, start: nat, size: nat) returns (written: nat)
      requires g.Paged() && WellFormedSubbuffer(g, sub)
      modifies this
      ensures written == DumpCount(g, start, size)
      ensures files == Extended(old(files), cpu, Piece(g, sub, start, written))
    {
      hide Bytes, Span, Extended;
      ExtendedByNothing(files, cpu);
      var p := g.pageSize;
      var i: nat, startOffset: nat := Locate(start);
      var left: nat := size;
      PageBound(g, i);
      written := 0;
      while i < g.numPages
        invariant startOffset < p && left == size - written
        invariant Span(p, i) + startOffset == start + written
        invariant i < g.numPages ==> Span(p, i) + p <= g.subbufSize
        invariant i >= g.numPages ==> Span(p, i) >= g.subbufSize
        invariant written > 0 ==> startOffset == 0 && start + written <= g.subbufSize
        invariant files == Extended(old(files), cpu, Piece(g, sub, start, written))
      {
        PageBound(g, i);
        PageBound(g, i + 1);
        if left > p - startOffset {
          PageStep(g, sub, old(files), cpu, start, written, i, startOffset, p - startOffset);
          DumpPage(cpu, sub.pages[i], startOffset, p - startOffset);
          left := left - (p - startOffset);
          written := written + (p - startOffset);
          startOffset := 0;
        } else {
          PageStep(g, sub, old(files), cpu, start, written, i, startOffset, left);
          DumpPage(cpu, sub.pages[i], startOffset, left);
          written := written + left;
          break;
        }
        i := i + 1;
      }
    }

    // Writes zeros after the data, creating the file if need be.
    method AddAlignment(cpu: nat, size: nat)
      modifies this
      ensures cpu in files && files == old(files)[cpu := files[cpu]]
      ensures |files[cpu]| == |old(Contents(cpu))| + size && old(Contents(cpu)) <= files[cpu]
      ensures forall k :: |old(Contents(cpu))| <= k < |files[cpu]| ==> files[cpu][k] == 0
    {
      files := files[cpu := Contents(cpu) + Zeros(size)];
    }

    // Seek and write in an existing file.
    method Patch(cpu: nat, pos: nat, bs: seq<Byte>)
      modifies this
      ensures files == old(files)[cpu := WriteAt(old(Contents(cpu)), pos, bs)]
    {
      files := files[cpu := WriteAt(Contents(cpu), pos, bs)];
    }

    // Appends the packet of one sub-buffer; no packet if there is no data.
    method HandleSubbuffer(cpu: nat, ring: RingBuffer, cidx: nat, coffset: nat, length: int)
      requires g.Valid() && WellFormed(g, ring)
      requires cidx < g.numSubbuf && coffset < g.subbufSize
      modifies this
      ensures files
           == Appended(old(files), cpu, PacketOrNothing(g, Raw(g, ring, cidx, coffset, length)))
    {
      hide HotSize, Packet, Patched, And, AndNot, Extended, Align;
      ghost var before := Contents(cpu);
      files := files[cpu := Contents(cpu)];
      var start := |files[cpu]|;
      var size := DumpSize(g, ring, cidx, length);
      ghost var raw := Raw(g, ring, cidx, coffset, length);
      if size == 0 {
        assert before + [] == before;
        return;
      }
      var written := DumpSubbuffer(cpu, SubbufferAt(g, ring, cidx), coffset, size);
      assert |raw| == written > 0;
      PacketIsPatched(g, raw);
      var padded := Align(written, g.pageSize);
      DumpedAndPadded(old(files), cpu, before, raw, padded - written);
      AddAlignment(cpu, padded - written);
      ghost var body := raw + Zeros(padded - written);
      ZerosEnd(before + raw, padded - written, files[cpu]);
      assert before + raw + Zeros(padded - written) == before + body;
      assert files == old(files)[cpu := before + body];
      UpdateTwice(old(files), cpu, before + body, before + Packet(g, raw));
      PatchHeader(cpu, start, written, padded, before, body);
    }

    // Fills in the end time stamp if there is none, the content size and the
    // packet size, in bits, of the packet that starts at start.
    method PatchHeader(cpu: nat, start: nat, written: nat, padded: nat,
                       ghost before: seq<Byte>, ghost body: seq<Byte>)
      requires Contents(cpu) == before + body && |before| == start && |body| >= 64
      modifies this
      ensures files == old(files)[cpu := before + Patched(body, written, padded, g.little)]
    {
      hide WriteAt, Encode, Decode;
      WriteBack(before, body);
      var tsc := ReadValue(Contents(cpu)[start + 40..start + 48], g.little);
      ghost var t := if tsc == 0 then Encode(MAX_TSC, 8, g.little) else body[40..48];
      var content, packet := Encode(written * 8, 8, g.little), Encode(padded * 8, 8, g.little);
      ThreeFields(before, body, t, content, packet);
      if tsc == 0 {
        Patch(cpu, start + 40, Encode(MAX_TSC, 8, g.little));
      }
      Patch(cpu, start + 48, content);
      Patch(cpu, start + 56, packet);
    }

    // One packet per sub-buffer from the consumed counter to the offset.
    method HandleBuffer(cpu: nat, ring: RingBuffer)
      requires g.Valid() && WellFormed(g, ring)
      modifies this
      ensures files == Appended(old(files), cpu, PacketFile(g, BufferRaws(g, ring)))
    {
      hide PacketOrNothing, RestOfFile, Raw, PacketFile, Appended;
      var oidx: nat, ooffset: nat := RingIndex(g, ring.offset), RingOffset(g, ring.offset);
      var cidx: nat, coffset: nat := RingIndex(g, ring.consumed), RingOffset(g, ring.consumed);
      ghost var done: seq<Byte>, rest := [], RestOfFile(g, ring, cidx, oidx, coffset, ooffset);
      ghost var all := rest;
      WholeFile(g, ring);
      while oidx != cidx
        invariant cidx < g.numSubbuf && coffset < g.subbufSize
        invariant rest == RestOfFile(g, ring, cidx, oidx, coffset, ooffset)
        invariant done + rest == all
        invariant (files == old(files) && done == []) || files == Appended(old(files), cpu, done)
        decreases Distance(g.numSubbuf, cidx, oidx)
      {
        RestStep(g, ring, cidx, oidx, coffset, ooffset);
        ghost var packet := PacketOrNothing(g, Raw(g, ring, cidx, coffset, 0));
        AppendedTwice(old(files), cpu, done, packet);
        assert [] + packet == packet;
        HandleSubbuffer(cpu, ring, cidx, coffset, 0);
        cidx := Next(g, cidx);
        coffset := 0;
        rest := RestOfFile(g, ring, cidx, oidx, coffset, ooffset);
        assert done + (packet + rest) == (done + packet) + rest;
        done := done + packet;
      }
      RestStep(g, ring, cidx, oidx, coffset, ooffset);
      AppendedTwice(old(files), cpu, done, rest);
      assert [] + rest == rest;
      HandleSubbuffer(cpu, ring, cidx, coffset, ooffset - coffset);
    }

    // Every online CPU's buffer, each into its own file.
    method DumpCpus(cpus: seq<nat>, buffers: map<nat, RingBuffer>)
      requires g.Valid()
      requires forall cpu :: cpu in cpus ==> cpu in buffers && WellFormed(g, buffers[cpu])
      requires forall i, j :: 0 <= i < j < |cpus| ==> cpus[i] != cpus[j]
      requires files == map[]
      modifies this
      ensures files.Keys == set cpu | cpu in cpus
      ensures forall cpu :: cpu in cpus ==> files[cpu] == PacketFile(g, BufferRaws(g, buffers[cpu]))
    {
      hide PacketFile, BufferRaws, WellFormed;
      for i := 0 to |cpus|
        invariant files.Keys == set cpu | cpu in cpus[..i]
        invariant forall cpu :: cpu in cpus[..i] ==>
          files[cpu] == PacketFile(g, BufferRaws(g, buffers[cpu]))
      {
        var cpu := cpus[i];
        assert cpu !in cpus[..i] && cpus[..i + 1] == cpus[..i] + [cpu];
        assert [] + PacketFile(g, BufferRaws(g, buffers[cpu])) == PacketFile(g, BufferRaws(g, buffers[cpu]));
        HandleBuffer(cpu, buffers[cpu]);
      }
      assert cpus[..|cpus|] == cpus;
    }
  }

  lemma WriteInside(before: seq<Byte>, body: seq<Byte>, k: nat, bs: seq<Byte>)
    requires k + |bs| <= |body|
    ensures WriteAt(before + body, |before| + k, bs) == before + (body[..k] + bs + body[k + |bs|..])
  {
  }

  // Three fields of eight bytes, written one after the other.
  lemma ThreeFields(before: seq<Byte>, body: seq<Byte>, t: seq<Byte>, c: seq<Byte>, p: seq<Byte>)
    requires |body| >= 64 && |t| == |c| == |p| == 8
    ensures WriteAt(WriteAt(WriteAt(before + body, |before| + 40, t), |before| + 48, c), |before| + 56, p)
         == before + (body[..40] + t + c + p + body[64..])
  {
    WriteInside(before, body, 40, t);
    var b1 := body[..40] + t + body[48..];
    WriteInside(before, b1, 48, c);
    var b2 := b1[..48] + c + b1[56..];
    assert b2 == body[..40] + t + c + body[56..];
    WriteInside(before, b2, 56, p);
    assert b2[..56] == body[..40] + t + c;
  }

  // Writing back the bytes that are there changes nothing.
  lemma WriteBack(before: seq<Byte>, body: seq<Byte>)
    requires |body| >= 64
    ensures (before + body)[|before| + 40..|before| + 48] == body[40..48]
    ensures WriteAt(before + body, |before| + 40, body[40..48]) == before + body
  {
    WriteInside(before, body, 40, body[40..48]);
    assert body[..40] + body[40..48] + body[48..] == body;
  }
}
