// The gap search of create_partition, in megabytes.
module Partitions {
  import opened Common

  datatype Part = Part(start: int, end: int)

  // What get_partitions promises: partitions on the disk, sorted and disjoint,
  // with their ends rounded up.
  ghost predicate WellFormed(disk: int, parts: seq<Part>) {
    && (forall i :: 0 <= i < |parts| ==>
          0 <= parts[i].start <= parts[i].end <= disk && 1 <= parts[i].end)
    && (forall i, j :: 0 <= i < j < |parts| ==> parts[i].end <= parts[j].start)
  }

  // [x, x + size) is on the disk, behind the first megabyte, and free.
  ghost predicate Fits(disk: int, parts: seq<Part>, size: int, x: int) {
    && 1 <= x && x + size <= disk
    && forall i :: 0 <= i < |parts| ==> x + size <= parts[i].start || parts[i].end <= x
  }

  // The first gap behind last that is large enough.
  function FirstFit(disk: int, last: int, parts: seq<Part>, size: int): Option<int>
    decreases |parts|
  {
    if parts == [] then if disk - last >= size then Some(last) else None
    else if parts[0].start - last >= size then Some(last)
    else FirstFit(disk, parts[0].end, parts[1..], size)
  }

  method FindGap(disk: int, parts: seq<Part>, size: int) returns (place: Option<Part>)
    ensures place == match FirstFit(disk, 1, parts, size)
                     case None => None
                     case Some(x) => Some(Part(x, x + size))
  {
    var lastEnd, found, i := 1, false, 0;
    while i < |parts|
      invariant 0 <= i <= |parts| && !found
      invariant FirstFit(disk, 1, parts, size) == FirstFit(disk, lastEnd, parts[i..], size)
    {
      assert parts[i..][1..] == parts[i + 1..];
      if parts[i].start - lastEnd >= size {
        found := true;
        break;
      }
      lastEnd := parts[i].end;
      i := i + 1;
    }
    if !found {
      if disk - lastEnd >= size {
        found := true;
      } else {
        return None;
      }
    }
    place := Some(Part(lastEnd, lastEnd + size));
  }

  // The place found fits, and is the lowest that does; none is found exactly
  // if none fits.
  lemma FirstFitIsLowest(disk: int, parts: seq<Part>, size: nat)
    requires WellFormed(disk, parts)
    ensures FirstFit(disk, 1, parts, size).None? <==> forall x :: !Fits(disk, parts, size, x)
    ensures FirstFit(disk, 1, parts, size).Some? ==>
      Fits(disk, parts, size, FirstFit(disk, 1, parts, size).value)
      && forall x :: Fits(disk, parts, size, x) ==> FirstFit(disk, 1, parts, size).value <= x
  {
    LowestFrom(disk, parts, size, 0, 1);
    assert parts[0..] == parts;
  }

  lemma {:induction false} LowestFrom(disk: int, parts: seq<Part>, size: nat, i: nat, last: int)
    requires WellFormed(disk, parts) && i <= |parts| && 1 <= last
    requires forall k :: 0 <= k < i ==> parts[k].end <= last
    requires forall k :: i <= k < |parts| ==> last <= parts[k].start || (i == 0 && last == 1)
    requires forall x :: Fits(disk, parts, size, x) ==> last <= x
    ensures
      var r := FirstFit(disk, last, parts[i..], size);
      && (r.None? <==> forall x :: !Fits(disk, parts, size, x))
      && (r.Some? ==> Fits(disk, parts, size, r.value)
                      && forall x :: Fits(disk, parts, size, x) ==> r.value <= x)
    decreases |parts| - i
  {
    if i == |parts| {
      if disk - last >= size {
        assert Fits(disk, parts, size, last);
      }
    } else if parts[i].start - last >= size {
      assert Fits(disk, parts, size, last);
    } else {
      assert parts[i..][1..] == parts[i + 1..];
      LowestFrom(disk, parts, size, i + 1, parts[i].end);
    }
  }

  // A new partition in its place in the list.
  function Insert(parts: seq<Part>, p: Part): seq<Part> {
    if parts == [] || p.end <= parts[0].start then [p] + parts else [parts[0]] + Insert(parts[1..], p)
  }

  lemma {:induction false} InsertAdds(parts: seq<Part>, p: Part)
    ensures multiset(Insert(parts, p)) == multiset(parts) + multiset{p}
  {
    if parts != [] && p.end > parts[0].start {
      InsertAdds(parts[1..], p);
      assert parts == [parts[0]] + parts[1..];
    }
  }

  lemma {:induction false} InsertKeeps(disk: int, parts: seq<Part>, size: nat, x: int)
    requires WellFormed(disk, parts) && Fits(disk, parts, size, x)
    ensures WellFormed(disk, Insert(parts, Part(x, x + size)))
  {
    var p := Part(x, x + size);
    if parts == [] || p.end <= parts[0].start {
      PrependKeeps(disk, p, parts);
    } else {
      var first, tail := parts[0], parts[1..];
      InsertKeeps(disk, tail, size, x);
      InsertAdds(tail, p);
      AfterFirst(first, tail, Insert(tail, p), p);
      PrependKeeps(disk, first, Insert(tail, p));
    }
  }

  lemma AfterFirst(first: Part, tail: seq<Part>, rest: seq<Part>, p: Part)
    requires multiset(rest) == multiset(tail) + multiset{p}
    requires first.end <= p.start && forall q :: q in tail ==> first.end <= q.start
    ensures forall j :: 0 <= j < |rest| ==> first.end <= rest[j].start
  {
    forall j | 0 <= j < |rest|
      ensures first.end <= rest[j].start
    {
      assert rest[j] in multiset(rest);
      assert rest[j] == p || rest[j] in multiset(tail);
    }
  }

  lemma PrependKeeps(disk: int, first: Part, rest: seq<Part>)
    requires WellFormed(disk, [first]) && WellFormed(disk, rest)
    requires forall j :: 0 <= j < |rest| ==> first.end <= rest[j].start
    ensures WellFormed(disk, [first] + rest)
  {
  }

  // Allocations one after the other; one that fails leaves the list alone.
  function AllocateAll(disk: int, parts: seq<Part>, sizes: seq<nat>): seq<Part>
    decreases |sizes|
  {
    if sizes == [] then parts
    else
      match FirstFit(disk, 1, parts, sizes[0])
      case None => AllocateAll(disk, parts, sizes[1..])
      case Some(x) => AllocateAll(disk, Insert(parts, Part(x, x + sizes[0])), sizes[1..])
  }

  // An allocation with room is made, and the ones behind it see it.
  lemma AllocateFirst(disk: int, parts: seq<Part>, sizes: seq<nat>, x: int)
    requires WellFormed(disk, parts) && sizes != [] && Fits(disk, parts, sizes[0], x)
    ensures exists y ::
      y <= x && Fits(disk, parts, sizes[0], y)
      && AllocateAll(disk, parts, sizes) == AllocateAll(disk, Insert(parts, Part(y, y + sizes[0])), sizes[1..])
    ensures |AllocateAll(disk, parts, [sizes[0]])| == |parts| + 1
  {
    FirstFitIsLowest(disk, parts, sizes[0]);
    var y := FirstFit(disk, 1, parts, sizes[0]).value;
    assert [sizes[0]][1..] == [];
    InsertAdds(parts, Part(y, y + sizes[0]));
    assert |multiset(Insert(parts, Part(y, y + sizes[0])))| == |parts| + 1;
    assert y <= x && Fits(disk, parts, sizes[0], y);
  }

  // Any number of allocations keeps the list sorted and disjoint, and keeps
  // every partition there was.
  lemma {:induction false} AllocationsKeep(disk: int, parts: seq<Part>, sizes: seq<nat>)
    requires WellFormed(disk, parts)
    ensures WellFormed(disk, AllocateAll(disk, parts, sizes))
    ensures multiset(parts) <= multiset(AllocateAll(disk, parts, sizes))
    decreases |sizes|
  {
    hide WellFormed, Fits, FirstFit, Insert;
    if sizes != [] {
      FirstFitIsLowest(disk, parts, sizes[0]);
      match FirstFit(disk, 1, parts, sizes[0])
      case None =>
        AllocationsKeep(disk, parts, sizes[1..]);
      case Some(x) =>
        InsertKeeps(disk, parts, sizes[0], x);
        InsertAdds(parts, Part(x, x + sizes[0]));
        AllocationsKeep(disk, Insert(parts, Part(x, x + sizes[0])), sizes[1..]);
    }
  }

  // What get_partitions really returns: it takes the end from the start
  // column too. A start that is not a whole number of megabytes is rounded
  // down for the start and up for the end.
  function AsRead(parts: seq<Part>, fractional: seq<bool>): (read: seq<Part>)
    requires |parts| == |fractional|
    ensures |read| == |parts|
    ensures forall i :: 0 <= i < |parts| ==>
      read[i] == Part(parts[i].start, parts[i].start + if fractional[i] then 1 else 0)
  {
    if parts == [] then []
    else
      [Part(parts[0].start, parts[0].start + if fractional[0] then 1 else 0)] + AsRead(parts[1..], fractional[1..])
  }

  // How many partitions lie before the first gap that is large enough.
  function Before(last: int, parts: seq<Part>, size: int): (n: nat)
    ensures n <= |parts|
    decreases |parts|
  {
    if parts == [] || parts[0].start - last >= size then 0 else 1 + Before(parts[0].end, parts[1..], size)
  }

  lemma {:induction false} FirstFitIsBehind(disk: int, last: int, parts: seq<Part>, size: int)
    requires FirstFit(disk, last, parts, size).Some?
    ensures
      var x, n := FirstFit(disk, last, parts, size).value, Before(last, parts, size);
      && x == (if n == 0 then last else parts[n - 1].end)
      && size <= (if n < |parts| then parts[n].start else disk) - x
    decreases |parts|
  {
    if parts != [] && parts[0].start - last < size {
      FirstFitIsBehind(disk, parts[0].end, parts[1..], size);
    }
  }

  // With the list as read, the place found is free exactly if it is in front
  // of all partitions or the end of the one before it was read right.
  lemma MisreadEndsSafeIff(disk: int, parts: seq<Part>, fractional: seq<bool>, size: nat)
    requires WellFormed(disk, parts) && |parts| == |fractional| && size > 0
    requires forall i :: 0 <= i < |parts| ==> parts[i].start < parts[i].end
    requires FirstFit(disk, 1, AsRead(parts, fractional), size).Some?
    ensures
      var read := AsRead(parts, fractional);
      var n := Before(1, read, size);
      Fits(disk, parts, size, FirstFit(disk, 1, read, size).value)
      <==> n == 0 || read[n - 1].end == parts[n - 1].end
    ensures Before(1, AsRead(parts, fractional), size) == 0 <==> parts == [] || parts[0].start - 1 >= size
  {
    var read := AsRead(parts, fractional);
    hide FirstFit, WellFormed, Fits, AsRead;
    FirstFitIsBehind(disk, 1, read, size);
    FreeBehindIff(disk, parts, size, FirstFit(disk, 1, read, size).value, Before(1, read, size));
  }

  lemma FreeBehindIff(disk: int, parts: seq<Part>, size: nat, x: int, n: nat)
    requires WellFormed(disk, parts) && n <= |parts| && size > 0
    requires if n == 0 then x == 1 else parts[n - 1].start <= x <= parts[n - 1].end
    requires size <= (if n < |parts| then parts[n].start else disk) - x
    ensures Fits(disk, parts, size, x) <==> n == 0 || x == parts[n - 1].end
  {
    if n > 0 && x != parts[n - 1].end {
      assert !(x + size <= parts[n - 1].start || parts[n - 1].end <= x);
    } else {
      assert x >= 1 && x + size <= disk;
      forall i | 0 <= i < |parts|
        ensures x + size <= parts[i].start || parts[i].end <= x
      {
        if i < n - 1 {
          assert parts[i].end <= parts[n - 1].start;
        } else if i > n {
          assert parts[n].end <= parts[i].start;
        }
      }
    }
  }

  // With ends read too low the gaps only look larger, so an error is right.
  lemma {:induction false} GapsShrink(disk: int, last: int, low: int, parts: seq<Part>, fractional: seq<bool>,
                                      size: int)
    requires |parts| == |fractional| && low <= last
    requires forall i :: 0 <= i < |parts| ==> parts[i].start < parts[i].end
    requires FirstFit(disk, low, AsRead(parts, fractional), size).None?
    ensures FirstFit(disk, last, parts, size).None?
    decreases |parts|
  {
    if parts != [] {
      var read := AsRead(parts, fractional);
      assert read[1..] == AsRead(parts[1..], fractional[1..]);
      GapsShrink(disk, parts[0].end, read[0].end, parts[1..], fractional[1..], size);
    }
  }

  lemma MisreadErrorIsRight(disk: int, parts: seq<Part>, fractional: seq<bool>, size: nat)
    requires WellFormed(disk, parts) && |parts| == |fractional|
    requires forall i :: 0 <= i < |parts| ==> parts[i].start < parts[i].end
    requires FirstFit(disk, 1, AsRead(parts, fractional), size).None?
    ensures forall x :: !Fits(disk, parts, size, x)
  {
    hide WellFormed, Fits, FirstFit;
    GapsShrink(disk, 1, 1, parts, fractional, size);
    FirstFitIsLowest(disk, parts, size);
  }

  // The place found lies in a partition, whether that starts at a whole
  // megabyte or at 1.05, as a partition aligned to 1 MiB does.
  lemma MisreadEndsOverlap(fractional: bool)
    ensures
      var parts := [Part(1, 100)];
      var place := FirstFit(200, 1, AsRead(parts, [fractional]), 10);
      place == Some(if fractional then 2 else 1) && !Fits(200, parts, 10, place.value)
  {
    var parts := [Part(1, 100)];
    var read := AsRead(parts, [fractional]);
    assert read[1..] == [];
    assert FirstFit(200, read[0].end, [], 10) == Some(read[0].end);
    assert parts[0].end > read[0].end;
  }
}
