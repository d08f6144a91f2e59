// mount_all and unmount_all: the order of mount points.
module Mounts {
  import opened Order
  import opened Common

  // a is strictly above b in the file system.
  predicate Ancestor(a: string, b: string) {
    a != b && (if a == "/" then b != "" && b[0] == '/' else a + "/" <= b)
  }

  // In terms of the rest of the path.
  lemma AncestorIff(a: string, b: string)
    ensures a != "/" ==> (Ancestor(a, b) <==> exists rest :: b == a + "/" + rest)
    ensures a == "/" ==> (Ancestor(a, b) <==> b != "/" && exists rest :: b == "/" + rest)
  {
    if a != "/" && Ancestor(a, b) {
      assert b == a + "/" + b[|a| + 1..];
    }
    if a == "/" && Ancestor(a, b) {
      assert b == "/" + b[1..];
    }
    if rest :| b == a + "/" + rest {
      assert a + "/" <= b;
    }
  }

  // A proper ancestor comes first in dictionary order.
  lemma AncestorIsLess(a: string, b: string)
    requires Ancestor(a, b)
    ensures Less(a, b)
  {
    if a == "/" {
      assert a <= b;
    } else {
      assert a <= a + "/" <= b;
    }
    PrefixLess(a, b);
  }

  const SPECIAL: seq<string> := ["/dev", "/proc", "/sys"]

  // No mount point of the file system table is at or below a special one.
  ghost predicate WellFormed(points: seq<string>) {
    forall p, s :: p in points && s in SPECIAL ==> p != s && !Ancestor(s, p)
  }

  function MountOrder(points: seq<string>): seq<string> {
    Sort(points) + SPECIAL
  }

  // Without a file system table nothing is unmounted.
  function UnmountOrder(points: seq<string>): seq<string> {
    if points == [] then [] else SPECIAL + Reversed(Sort(points))
  }

  datatype Event = Mount(point: string) | Unmount(point: string)

  class Installer {
    // The keys of the table read from fstab.
    var points: seq<string>
    // What is mounted, and the mount and umount commands so far.
    var mounted: set<string>
    var log: seq<Event>

    constructor (points: seq<string>)
      ensures this.points == points && mounted == {} && log == []
    {
      this.points, mounted, log := points, {}, [];
    }

    method MountOne(point: string)
      modifies this`mounted, this`log
      ensures mounted == old(mounted) + {point} && log == old(log) + [Mount(point)]
    {
      mounted, log := mounted + {point}, log + [Mount(point)];
    }

    method UnmountOne(point: string)
      modifies this`mounted, this`log
      ensures mounted == old(mounted) - {point} && log == old(log) + [Unmount(point)]
    {
      mounted, log := mounted - {point}, log + [Unmount(point)];
    }

    method MountAll()
      modifies this`mounted, this`log
      ensures log == old(log) + Mounting(MountOrder(points))
      ensures mounted == old(mounted) + Elements(MountOrder(points))
    {
      hide MountOrder, Elements, Mounting;
      var order := MountOrder(points);
      NoEvents();
      for i := 0 to |order|
        invariant log == old(log) + Mounting(order[..i])
        invariant mounted == old(mounted) + Elements(order[..i])
      {
        OneMore(order, i);
        MountOne(order[i]);
      }
      assert order[..|order|] == order;
    }

    method UnmountAll()
      modifies this`mounted, this`log
      ensures log == old(log) + Unmounting(UnmountOrder(points))
      ensures mounted == old(mounted) - Elements(UnmountOrder(points))
    {
      hide UnmountOrder, Elements, Unmounting;
      NoEvents();
      if points == [] {
        return;
      }
      var order := UnmountOrder(points);
      for i := 0 to |order|
        invariant log == old(log) + Unmounting(order[..i])
        invariant mounted == old(mounted) - Elements(order[..i])
      {
        OneMore(order, i);
        MinusTwice(old(mounted), Elements(order[..i]), {order[i]});
        UnmountOne(order[i]);
      }
      assert order[..|order|] == order;
    }
  }

  lemma NoEvents()
    ensures Mounting([]) == [] && Unmounting([]) == [] && Elements<string>([]) == {}
    ensures UnmountOrder([]) == []
  {
  }

  lemma MinusTwice(a: set<string>, b: set<string>, c: set<string>)
    ensures a - b - c == a - (b + c)
  {
  }

  lemma OneMore(order: seq<string>, i: nat)
    requires i < |order|
    ensures Mounting(order[..i + 1]) == Mounting(order[..i]) + [Mount(order[i])]
    ensures Unmounting(order[..i + 1]) == Unmounting(order[..i]) + [Unmount(order[i])]
    ensures Elements(order[..i + 1]) == Elements(order[..i]) + {order[i]}
  {
    assert order[..i + 1] == order[..i] + [order[i]];
  }

  function Mounting(order: seq<string>): (events: seq<Event>)
    ensures |events| == |order| && forall i :: 0 <= i < |order| ==> events[i] == Mount(order[i])
  {
    seq(|order|, i requires 0 <= i < |order| => Mount(order[i]))
  }

  function Unmounting(order: seq<string>): (events: seq<Event>)
    ensures |events| == |order| && forall i :: 0 <= i < |order| ==> events[i] == Unmount(order[i])
  {
    seq(|order|, i requires 0 <= i < |order| => Unmount(order[i]))
  }

  // The table after a list of commands.
  function After(events: seq<Event>, mounted: set<string>): set<string>
    decreases |events|
  {
    if events == [] then mounted
    else
      var last := events[|events| - 1];
      var before := After(events[..|events| - 1], mounted);
      if last.Mount? then before + {last.point} else before - {last.point}
  }

  // No command touches a point with something mounted below it.
  ghost predicate Safe(events: seq<Event>, mounted: set<string>) {
    forall i, p :: 0 <= i < |events| && p in After(events[..i], mounted) ==> !Ancestor(events[i].point, p)
  }

  lemma {:induction false} AfterMounting(order: seq<string>, mounted: set<string>)
    ensures After(Mounting(order), mounted) == mounted + Elements(order)
  {
    if order != [] {
      var init := order[..|order| - 1];
      AfterMounting(init, mounted);
      assert Mounting(order)[..|order| - 1] == Mounting(init);
      assert order == init + [order[|order| - 1]];
    }
  }

  lemma {:induction false} AfterUnmounting(order: seq<string>, mounted: set<string>)
    ensures After(Unmounting(order), mounted) == mounted - Elements(order)
  {
    if order != [] {
      var init := order[..|order| - 1];
      AfterUnmounting(init, mounted);
      assert Unmounting(order)[..|order| - 1] == Unmounting(init);
      assert order == init + [order[|order| - 1]];
    }
  }

  // No special point is above another or above a point of the table.
  lemma SpecialNotAbove(points: seq<string>, s: string, p: string)
    requires WellFormed(points) && s in SPECIAL && (p in points || p in SPECIAL)
    ensures !Ancestor(s, p)
  {
    if p in SPECIAL {
      SpecialUnrelated(s, p);
    }
  }

  lemma SpecialUnrelated(a: string, b: string)
    requires a in SPECIAL && b in SPECIAL
    ensures !Ancestor(a, b)
  {
    assert a != "/";
    assert a[1] == b[1] ==> a == b;
    assert (a + "/")[1] == a[1];
  }

  // The sorted points and the special ones, no ancestor after a descendant.
  lemma AncestorsFirst(points: seq<string>, i: nat, j: nat)
    requires WellFormed(points) && i < j < |MountOrder(points)|
    ensures !Ancestor(MountOrder(points)[j], MountOrder(points)[i])
  {
    hide Ancestor, Less, Sort, WellFormed;
    var order, sorted := MountOrder(points), Sort(points);
    SortSorts(points);
    if j >= |sorted| {
      SpecialNotAbove(points, order[j], order[i]);
    } else if Ancestor(sorted[j], sorted[i]) {
      AncestorIsLess(sorted[j], sorted[i]);
    }
  }

  // Mounting everything never covers a mount point below.
  lemma MountAllSafe(points: seq<string>)
    requires WellFormed(points)
    ensures Safe(Mounting(MountOrder(points)), {})
    ensures After(Mounting(MountOrder(points)), {}) == Elements(MountOrder(points))
  {
    var order := MountOrder(points);
    var events := Mounting(order);
    AfterMounting(order, {});
    forall j, p | 0 <= j < |events| && p in After(events[..j], {})
      ensures !Ancestor(events[j].point, p)
    {
      assert events[..j] == Mounting(order[..j]);
      AfterMounting(order[..j], {});
      var i :| 0 <= i < j && order[i] == p;
      AncestorsFirst(points, i, j);
    }
  }

  // What is mounted then: the points of the table, /dev, /proc and /sys.
  lemma WhatIsMounted(points: seq<string>, p: string)
    ensures p in After(Mounting(MountOrder(points)), {}) <==>
      p in points || p == "/dev" || p == "/proc" || p == "/sys"
  {
    AfterMounting(MountOrder(points), {});
    SortSorts(points);
    assert SPECIAL[0] == "/dev" && SPECIAL[1] == "/proc" && SPECIAL[2] == "/sys";
    assert p in Sort(points) <==> p in multiset(Sort(points));
    assert p in points <==> p in multiset(points);
  }

  // Unmounting everything never takes a point with a mount below it, and
  // leaves nothing.
  lemma UnmountAllSafe(points: seq<string>)
    requires WellFormed(points) && points != []
    ensures Safe(Unmounting(UnmountOrder(points)), Elements(MountOrder(points)))
    ensures After(Unmounting(UnmountOrder(points)), Elements(MountOrder(points))) == {}
  {
    var order, sorted := UnmountOrder(points), Sort(points);
    var all, events := Elements(MountOrder(points)), Unmounting(order);
    AfterUnmounting(order, all);
    forall p | p in all
      ensures p in order
    {
      InUnmountOrder(points, p);
    }
    forall i, p | 0 <= i < |events| && p in After(events[..i], all)
      ensures !Ancestor(events[i].point, p)
    {
      assert events[..i] == Unmounting(order[..i]);
      AfterUnmounting(order[..i], all);
      InUnmountOrder(points, p);
      var j :| 0 <= j < |order| && order[j] == p;
      assert p !in order[..i];
      assert forall k :: 0 <= k < i ==> order[..i][k] == order[k];
      UnmountDescendantsFirst(points, i, j);
    }
  }

  lemma InUnmountOrder(points: seq<string>, p: string)
    requires points != [] && p in MountOrder(points)
    ensures p in UnmountOrder(points)
  {
    var sorted := Sort(points);
    if p in sorted {
      var i :| 0 <= i < |sorted| && sorted[i] == p;
      assert Reversed(sorted)[|sorted| - 1 - i] == p;
    }
  }

  lemma UnmountDescendantsFirst(points: seq<string>, i: nat, j: nat)
    requires WellFormed(points) && points != [] && i <= j < |UnmountOrder(points)|
    ensures !Ancestor(UnmountOrder(points)[i], UnmountOrder(points)[j])
  {
    hide Ancestor, Less, Sort, WellFormed, MountOrder, UnmountOrder;
    var n, m := |SPECIAL|, |Sort(points)|;
    OrdersAt(points);
    SortSorts(points);
    var p, q := UnmountOrder(points)[i], UnmountOrder(points)[j];
    if i < n {
      SpecialNotAbove(points, p, q);
    } else if i < j {
      AncestorsFirst(points, m - 1 - (j - n), m - 1 - (i - n));
    } else {
      NotAboveItself(p);
    }
  }

  // Behind the special points the two orders mirror each other.
  lemma OrdersAt(points: seq<string>)
    requires points != []
    ensures
      var n, m, sorted := |SPECIAL|, |Sort(points)|, Sort(points);
      && |UnmountOrder(points)| == |MountOrder(points)| == n + m
      && (forall k :: 0 <= k < n ==> UnmountOrder(points)[k] == SPECIAL[k])
      && (forall k :: n <= k < n + m ==>
            UnmountOrder(points)[k] == sorted[m - 1 - (k - n)] == MountOrder(points)[m - 1 - (k - n)])
  {
    hide Sort;
  }

  lemma NotAboveItself(p: string)
    ensures !Ancestor(p, p)
  {
  }

  // Mounting and unmounting everything returns to the empty table, except that
  // without a file system table the special points stay mounted.
  lemma RoundTripIff(points: seq<string>)
    requires WellFormed(points)
    ensures After(Unmounting(UnmountOrder(points)), After(Mounting(MountOrder(points)), {})) == {}
      <==> points != []
  {
    MountAllSafe(points);
    if points != [] {
      UnmountAllSafe(points);
    } else {
      assert MountOrder(points)[0] == SPECIAL[0];
    }
  }
}
