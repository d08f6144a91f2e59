// Storage stacks by their parts, what the system reports of them, and when
// find_base_devices finds their disks.
module Stacks {
  import opened StorageStack
  import opened Graph
  import opened Common

  // A disk or a partition of one, an array or a partition of one, a logical
  // volume of a volume group.
  datatype Dev =
    | Whole(disk: string) | Slice(disk: string, num: string)
    | Array(md: string) | ArraySlice(md: string, num: string)
    | Volume(vg: string, lv: string)

  datatype Member = Member(dev: Dev, role: string)
  datatype Raid = Raid(md: string, level: string, members: seq<Member>)
  datatype Physical = Physical(dev: Dev, vg: string)

  datatype Stack = Stack(raids: seq<Raid>, physicals: seq<Physical>, uuids: map<string, Dev>) {
    ghost predicate Valid() {
      && ValidRaids(raids)
      && (forall p :: p in physicals ==> Named(p.dev))
      && (forall u :: u in uuids ==> Named(uuids[u]))
    }
  }

  ghost predicate ValidRaids(raids: seq<Raid>) {
    && (forall i, j :: 0 <= i < j < |raids| ==> raids[i].md != raids[j].md)
    && (forall r :: r in raids ==> ArrayName(r.md) && ValidMembers(r.members))
  }

  // Of a logical volume mdstat would give another name.
  ghost predicate ValidMembers(members: seq<Member>) {
    forall m :: m in members ==> Named(m.dev) && !m.dev.Volume?
  }

  ghost predicate DiskName(s: string) {
    |s| >= 3 && s[..2] in ["sd", "hd"] && forall c :: c in s ==> 'a' <= c <= 'z'
  }

  ghost predicate Number(s: string) {
    s != "" && forall c :: c in s ==> '0' <= c <= '9'
  }

  ghost predicate ArrayName(s: string) {
    |s| >= 3 && s[..2] == "md" && Number(s[2..])
  }

  ghost predicate Named(dev: Dev) {
    match dev
    case Whole(disk) => DiskName(disk)
    case Slice(disk, num) => DiskName(disk) && Number(num)
    case Array(md) => ArrayName(md)
    case ArraySlice(md, num) => ArrayName(md) && Number(num)
    case Volume(_, _) => true
  }

  // The device mapper doubles the hyphens of names and joins them with one.
  function Doubled(s: string): string {
    if s == "" then "" else (if s[0] == '-' then "--" else [s[0]]) + Doubled(s[1..])
  }

  function KernelName(dev: Dev): string {
    match dev
    case Whole(disk) => disk
    case Slice(disk, num) => disk + num
    case Array(md) => md
    case ArraySlice(md, num) => md + "p" + num
    case Volume(vg, lv) => "mapper/" + Doubled(vg) + "-" + Doubled(lv)
  }

  function Name(dev: Dev): string {
    "/dev/" + KernelName(dev)
  }

  function Names(devs: seq<Dev>): (names: seq<string>)
    ensures |names| == |devs|
    ensures forall i :: 0 <= i < |devs| ==> names[i] == Name(devs[i])
  {
    if devs == [] then [] else [Name(devs[0])] + Names(devs[1..])
  }

  function MemberWords(members: seq<Member>): seq<string> {
    if members == [] then []
    else [KernelName(members[0].dev) + "[" + members[0].role + "]"] + MemberWords(members[1..])
  }

  // md0 : active raid1 sda1[0] sdb1[1]
  function MdStat(raids: seq<Raid>): seq<seq<string>> {
    if raids == [] then []
    else [[raids[0].md, ":", "active", raids[0].level] + MemberWords(raids[0].members)] + MdStat(raids[1..])
  }

  function PvLines(physicals: seq<Physical>): seq<seq<string>> {
    if physicals == [] then []
    else [[Name(physicals[0].dev), physicals[0].vg, "lvm2"]] + PvLines(physicals[1..])
  }

  // What blkid, /proc/mdstat and pvs say about a stack.
  function Report(stack: Stack): System {
    System(map u | u in stack.uuids :: Name(stack.uuids[u]), MdStat(stack.raids), Some(PvLines(stack.physicals)))
  }

  function MemberDevs(members: seq<Member>): seq<Dev> {
    if members == [] then [] else [members[0].dev] + MemberDevs(members[1..])
  }

  function MembersOf(raids: seq<Raid>, md: string): seq<Dev> {
    if raids == [] then []
    else if raids[0].md == md then MemberDevs(raids[0].members)
    else MembersOf(raids[1..], md)
  }

  function PhysicalsOf(physicals: seq<Physical>, vg: string): seq<Dev> {
    if physicals == [] then []
    else (if physicals[0].vg == vg then [physicals[0].dev] else []) + PhysicalsOf(physicals[1..], vg)
  }

  // What a device lies on.
  function Children(stack: Stack, dev: Dev): seq<Dev> {
    match dev
    case Whole(_) => []
    case Slice(_, _) => []
    case Array(md) => MembersOf(stack.raids, md)
    case ArraySlice(md, _) => [Array(md)]
    case Volume(vg, _) => PhysicalsOf(stack.physicals, vg)
  }

  // The text up to the first hyphen.
  function UptoHyphen(s: string): string {
    match Before(s, '-')
    case None => s
    case Some(first) => first
  }

  // What find_base_devices takes it to lie on.
  function Taken(stack: Stack, dev: Dev): seq<Dev> {
    match dev
    case ArraySlice(_, _) => []
    case Volume(vg, _) => PhysicalsOf(stack.physicals, UptoHyphen(vg))
    case _ => Children(stack, dev)
  }

  predicate IsDisk(dev: Dev) {
    dev.Whole? || dev.Slice?
  }

  lemma LookDisk(sys: System, dev: Dev)
    requires Named(dev) && IsDisk(dev)
    ensures Look(sys, Name(dev)) == Disk("/dev/" + dev.disk[..3])
  {
    var base := KernelName(dev);
    assert Name(dev)[5..] == base && Name(dev)[0] == '/';
    assert base[..2] == dev.disk[..2] && base[..3] == dev.disk[..3];
    assert dev.disk[..2] == "sd" || dev.disk[..2] == "hd";
    assert base[0] == dev.disk[..2][0] && base[1] == dev.disk[..2][1];
  }

  lemma LookArray(stack: Stack, md: string)
    requires stack.Valid() && ArrayName(md)
    ensures Look(Report(stack), Name(Array(md))) == Built(Names(MembersOf(stack.raids, md)))
  {
    assert Name(Array(md))[5..] == md && Name(Array(md))[0] == '/';
    assert "md" <= md;
    ArrayReported(stack.raids, md);
  }

  lemma {:induction false} ArrayReported(raids: seq<Raid>, md: string)
    requires ValidRaids(raids)
    ensures ArrayMembers(MdStat(raids), md) == Some(Names(MembersOf(raids, md)))
  {
    hide ArrayName, ValidMembers;
    if raids != [] {
      var raid := raids[0];
      var line := [raid.md, ":", "active", raid.level] + MemberWords(raid.members);
      assert MdStat(raids)[0] == line && MdStat(raids)[1..] == MdStat(raids[1..]);
      assert line[4..] == MemberWords(raid.members);
      assert raid in raids;
      if raid.md != md {
        ArrayReported(raids[1..], md);
      } else if raid.members == [] {
        NotReported(raids[1..], md);
      } else {
        MembersReported(raid.members);
      }
    }
  }

  lemma {:induction false} NotReported(raids: seq<Raid>, md: string)
    requires forall r :: r in raids ==> r.md != md
    ensures ArrayMembers(MdStat(raids), md) == Some([]) && MembersOf(raids, md) == []
  {
    if raids != [] {
      assert MdStat(raids)[0][0] == raids[0].md;
      NotReported(raids[1..], md);
    }
  }

  lemma {:induction false} MembersReported(members: seq<Member>)
    requires ValidMembers(members)
    ensures Members(MemberWords(members)) == Some(Names(MemberDevs(members)))
  {
    hide KernelName, Named, Before;
    if members != [] {
      var m := members[0];
      assert m in members;
      NoBracket(m.dev);
      assert KernelName(m.dev) + "[" + m.role + "]" == KernelName(m.dev) + "[" + (m.role + "]");
      BeforeFirst(KernelName(m.dev), '[', m.role + "]");
      MembersReported(members[1..]);
    }
  }

  lemma NoBracket(dev: Dev)
    requires Named(dev) && !dev.Volume?
    ensures '[' !in KernelName(dev)
  {
    if !IsDisk(dev) {
      assert dev.md == dev.md[..2] + dev.md[2..];
    }
  }

  lemma {:induction false} BeforeFirst(s: string, c: char, rest: string)
    requires c !in s
    ensures Before(s + [c] + rest, c) == Some(s)
  {
    var all := s + [c] + rest;
    if s != "" {
      assert all[1..] == s[1..] + [c] + rest;
      BeforeFirst(s[1..], c, rest);
      assert s == [s[0]] + s[1..];
    }
  }

  lemma LookArraySlice(stack: Stack, dev: Dev)
    requires stack.Valid() && Named(dev) && dev.ArraySlice?
    ensures Look(Report(stack), Name(dev)) == Built([])
  {
    var base := KernelName(dev);
    assert Name(dev)[5..] == base && Name(dev)[0] == '/';
    assert base[..2] == dev.md[..2] && "md" <= base;
    forall r | r in stack.raids
      ensures r.md != base
    {
      assert base[2..][|dev.md| - 2] == 'p';
      assert 'p' in base[2..];
    }
    NotReported(stack.raids, base);
  }

  lemma LookVolume(stack: Stack, dev: Dev)
    requires dev.Volume?
    ensures Look(Report(stack), Name(dev)) == Built(Names(PhysicalsOf(stack.physicals, UptoHyphen(dev.vg))))
  {
    hide Before, Doubled;
    var base := KernelName(dev);
    assert Name(dev)[5..] == base && Name(dev)[0] == '/' && base[0] == 'm' && base[1] == 'a';
    assert base == "mapper/" + (Doubled(dev.vg) + "-" + Doubled(dev.lv));
    assert base[7..] == Doubled(dev.vg) + "-" + Doubled(dev.lv);
    CutAtHyphen(dev.vg, Doubled(dev.lv));
    VolumesReported(stack.physicals, UptoHyphen(dev.vg));
  }

  lemma {:induction false} CutAtHyphen(vg: string, rest: string)
    ensures Before(Doubled(vg) + "-" + rest, '-') == Some(UptoHyphen(vg))
  {
    var all := Doubled(vg) + "-" + rest;
    if vg != "" && vg[0] != '-' {
      assert all[1..] == Doubled(vg[1..]) + "-" + rest;
      CutAtHyphen(vg[1..], rest);
      assert vg == [vg[0]] + vg[1..];
    }
  }

  lemma {:induction false} VolumesReported(physicals: seq<Physical>, vg: string)
    ensures Volumes(PvLines(physicals), vg) == Names(PhysicalsOf(physicals, vg))
  {
    if physicals != [] {
      var p := physicals[0];
      VolumesReported(physicals[1..], vg);
      assert PvLines(physicals)[1..] == PvLines(physicals[1..]);
      if p.vg == vg {
        assert PhysicalsOf(physicals, vg)[1..] == PhysicalsOf(physicals[1..], vg);
      } else {
        assert PhysicalsOf(physicals, vg) == PhysicalsOf(physicals[1..], vg);
      }
    }
  }

  // A device by its name or by a UUID.
  ghost predicate Refers(stack: Stack, name: string, dev: Dev) {
    || name == Name(dev)
    || (name in stack.uuids && stack.uuids[name] == dev && "UUID=" <= name)
  }

  // How find_base_devices takes the names of devices.
  lemma LookTaken(stack: Stack, name: string, dev: Dev)
    requires stack.Valid() && Named(dev) && Refers(stack, name, dev)
    ensures Look(Report(stack), name)
         == if IsDisk(dev) then Disk("/dev/" + dev.disk[..3]) else Built(Names(Taken(stack, dev)))
  {
    hide LayerOf, Named, ValidRaids;
    var sys := Report(stack);
    assert Name(dev)[0] == '/';
    assert Look(sys, name) == Look(sys, Name(dev));
    match dev
    case Whole(_) => LookDisk(sys, dev);
    case Slice(_, _) => LookDisk(sys, dev);
    case Array(md) =>
      assert ArrayName(md) by { NamedArray(dev); }
      LookArray(stack, md);
    case ArraySlice(_, _) => LookArraySlice(stack, dev);
    case Volume(_, _) => LookVolume(stack, dev);
  }

  lemma NamedArray(dev: Dev)
    requires Named(dev) && dev.Array?
    ensures ArrayName(dev.md)
  {
  }

  ghost function On(stack: Stack): Dev -> set<Dev> {
    dev => set d | d in Children(stack, dev)
  }

  // Whether something holds of a device and of all it lies on.
  ghost predicate AllUnder(stack: Stack, dev: Dev, good: Dev -> bool) {
    forall d :: Reaches(On(stack), dev, d) ==> good(d)
  }

  // Names that are taken for nothing: of partitions of arrays, and of volumes
  // whose group has a hyphen in its name.
  ghost predicate Lost(dev: Dev) {
    dev.ArraySlice? || (dev.Volume? && '-' in dev.vg)
  }

  // Names that are taken for what they are: not those, and for disks those of
  // three letters.
  ghost function TakenRight(): Dev -> bool {
    dev => !Lost(dev) && (IsDisk(dev) ==> |dev.disk| == 3)
  }

  // No array without members and no group without physical volumes.
  ghost function Held(stack: Stack): Dev -> bool {
    dev => IsDisk(dev) || Children(stack, dev) != []
  }

  // No other group has the name that a volume's group is cut to.
  ghost function Apart(stack: Stack): Dev -> bool {
    (dev: Dev) => dev.Volume? && '-' in dev.vg ==> PhysicalsOf(stack.physicals, UptoHyphen(dev.vg)) == []
  }

  ghost predicate Layered(stack: Stack, rank: Dev -> nat) {
    forall d, c :: c in Children(stack, d) ==> rank(c) < rank(d)
  }

  ghost predicate AllLower(rank: Dev -> nat, devs: seq<Dev>, bound: nat) {
    forall d :: d in devs ==> rank(d) < bound
  }

  // The disks a device lies on, in order and with repetitions: all of them, or
  // those not behind a lost name.
  ghost function Leaves(stack: Stack, rank: Dev -> nat, dev: Dev, all: bool): seq<string>
    requires Layered(stack, rank)
    decreases 2 * rank(dev) + 1, 0
  {
    if IsDisk(dev) then ["/dev/" + dev.disk]
    else if !all && Lost(dev) then []
    else LeavesOf(stack, rank, Children(stack, dev), rank(dev), all)
  }

  ghost function LeavesOf(stack: Stack, rank: Dev -> nat, devs: seq<Dev>, bound: nat, all: bool): seq<string>
    requires Layered(stack, rank) && AllLower(rank, devs, bound)
    decreases 2 * bound, |devs|
  {
    if devs == [] then []
    else
      LeavesOf(stack, rank, devs[..|devs| - 1], bound, all) + Leaves(stack, rank, devs[|devs| - 1], all)
  }

  lemma ChildrenNamed(stack: Stack, dev: Dev)
    requires stack.Valid() && Named(dev)
    ensures forall c :: c in Children(stack, dev) ==> Named(c)
  {
    hide ArrayName, Number, DiskName;
    match dev
    case Array(md) => MembersAre(stack.raids, md, d => Named(d));
    case Volume(vg, _) => PhysicalsAre(stack.physicals, vg, d => Named(d));
    case _ =>
  }

  ghost predicate AllMembers(members: seq<Member>, good: Dev -> bool) {
    forall m :: m in members ==> good(m.dev)
  }

  lemma {:induction false} MembersAre(raids: seq<Raid>, md: string, good: Dev -> bool)
    requires forall r :: r in raids ==> AllMembers(r.members, good)
    ensures forall d :: d in MembersOf(raids, md) ==> good(d)
  {
    if raids != [] {
      assert raids[0] in raids;
      if raids[0].md == md {
        DevsAre(raids[0].members, good);
      } else {
        MembersAre(raids[1..], md, good);
      }
    }
  }

  lemma {:induction false} DevsAre(members: seq<Member>, good: Dev -> bool)
    requires AllMembers(members, good)
    ensures forall d :: d in MemberDevs(members) ==> good(d)
  {
    if members != [] {
      assert members[0] in members;
      DevsAre(members[1..], good);
    }
  }

  lemma {:induction false} PhysicalsAre(physicals: seq<Physical>, vg: string, good: Dev -> bool)
    requires forall p :: p in physicals ==> good(p.dev)
    ensures forall d :: d in PhysicalsOf(physicals, vg) ==> good(d)
  {
    if physicals != [] {
      assert physicals[0] in physicals;
      PhysicalsAre(physicals[1..], vg, good);
    }
  }

  lemma AllUnderByLayers(stack: Stack, dev: Dev, good: Dev -> bool)
    requires AllUnder(stack, dev, good)
    ensures good(dev)
    ensures forall c :: c in Children(stack, dev) ==> AllUnder(stack, c, good)
  {
    hide Reaches, Children;
    RootReached(On(stack), {dev}, dev);
    forall c, d | c in Children(stack, dev) && Reaches(On(stack), c, d)
      ensures good(d)
    {
      StepFirst(On(stack), dev, c, d);
    }
  }

  lemma AllUnderFromLayers(stack: Stack, dev: Dev, good: Dev -> bool)
    requires good(dev)
    requires forall c :: c in Children(stack, dev) ==> AllUnder(stack, c, good)
    ensures AllUnder(stack, dev, good)
  {
    hide Reaches, Children;
    forall d | Reaches(On(stack), dev, d)
      ensures good(d)
    {
      FirstStep(On(stack), dev, d);
    }
  }

  // On any stack, with right names all the way down the search ends and finds
  // exactly the disks.
  lemma {:induction false} RightNamesFound(stack: Stack, rank: Dev -> nat, name: string, dev: Dev)
    requires stack.Valid() && Layered(stack, rank)
    requires Named(dev) && Refers(stack, name, dev) && AllUnder(stack, dev, TakenRight())
    ensures Search(Report(stack), name, rank(dev) + 1) == Found(Leaves(stack, rank, dev, true))
    decreases 2 * rank(dev) + 1, 0
  {
    hide Look, Named, Children, Refers, AllUnder, Report, LeavesOf, UptoHyphen, SearchAll;
    AllUnderByLayers(stack, dev, TakenRight());
    LookTaken(stack, name, dev);
    if IsDisk(dev) {
      assert dev.disk[..3] == dev.disk;
    } else {
      ChildrenNamed(stack, dev);
      TakenIsChildren(stack, dev);
      RightNamesFoundOf(stack, rank, Children(stack, dev), rank(dev));
    }
  }

  lemma TakenIsChildren(stack: Stack, dev: Dev)
    requires !Lost(dev)
    ensures Taken(stack, dev) == Children(stack, dev)
  {
    if dev.Volume? {
      NoHyphen(dev.vg);
    }
  }

  lemma {:induction false} NoHyphen(s: string)
    requires '-' !in s
    ensures UptoHyphen(s) == s
  {
    if s != "" {
      NoHyphen(s[1..]);
      assert s == [s[0]] + s[1..];
    }
  }

  lemma {:induction false} RightNamesFoundOf(stack: Stack, rank: Dev -> nat, devs: seq<Dev>, bound: nat)
    requires stack.Valid() && Layered(stack, rank) && AllLower(rank, devs, bound)
    requires forall d :: d in devs ==> Named(d) && AllUnder(stack, d, TakenRight())
    ensures SearchAll(Report(stack), Names(devs), bound) == Found(LeavesOf(stack, rank, devs, bound, true))
    decreases 2 * bound, |devs|
  {
    hide *;
    if devs == [] {
      NoneFound(Report(stack), bound);
      LeavesOfNone(stack, rank, bound, true);
    } else {
      var init, last := devs[..|devs| - 1], devs[|devs| - 1];
      assert last in devs && forall d :: d in init ==> d in devs;
      FoundOfLast(Report(stack), devs, bound);
      LeavesOfLast(stack, rank, devs, bound, true);
      RightNamesFoundOf(stack, rank, init, bound);
      ReferName(stack, last);
      RightNamesFound(stack, rank, Name(last), last);
      SearchStays(Report(stack), Name(last), rank(last) + 1, bound);
    }
  }

  lemma ReferName(stack: Stack, dev: Dev)
    ensures Refers(stack, Name(dev), dev)
  {
  }

  lemma LeavesOfNone(stack: Stack, rank: Dev -> nat, bound: nat, all: bool)
    requires Layered(stack, rank)
    ensures LeavesOf(stack, rank, [], bound, all) == []
  {
  }

  lemma {:induction false} LeavesOfLast(stack: Stack, rank: Dev -> nat, devs: seq<Dev>, bound: nat, all: bool)
    requires Layered(stack, rank) && AllLower(rank, devs, bound) && devs != []
    ensures AllLower(rank, devs[..|devs| - 1], bound)
    ensures rank(devs[|devs| - 1]) < bound
    ensures LeavesOf(stack, rank, devs, bound, all)
         == LeavesOf(stack, rank, devs[..|devs| - 1], bound, all) + Leaves(stack, rank, devs[|devs| - 1], all)
  {
    hide Leaves, Layered;
  }

  lemma NoneFound(sys: System, n: nat)
    ensures Names([]) == [] && SearchAll(sys, [], n) == Found([])
  {
  }

  lemma {:induction false} FoundOfLast(sys: System, devs: seq<Dev>, n: nat)
    requires devs != []
    ensures
      var init, last := devs[..|devs| - 1], devs[|devs| - 1];
      SearchAll(sys, Names(devs), n)
      == match SearchAll(sys, Names(init), n)
         case Found(first) =>
           (match Search(sys, Name(last), n)
            case Found(rest) => Found(first + rest)
            case r => r)
         case r => r
  {
    hide Search, Name, Names;
    var init := devs[..|devs| - 1];
    assert Names(devs)[..|init|] == Names(init);
  }

  // Names of disks cut to three letters.
  function Cut(names: seq<string>): (cut: seq<string>)
    ensures |cut| == |names|
    ensures forall i :: 0 <= i < |names| ==> cut[i] == Upto(names[i], 8)
  {
    if names == [] then [] else Cut(names[..|names| - 1]) + [Upto(names[|names| - 1], 8)]
  }

  lemma CutAppend(a: seq<string>, b: seq<string>)
    ensures Cut(a + b) == Cut(a) + Cut(b)
  {
  }

  // What is found in general: the disks not behind a lost name, cut.
  lemma {:induction false} FoundIsVisible(stack: Stack, rank: Dev -> nat, name: string, dev: Dev)
    requires stack.Valid() && Layered(stack, rank)
    requires Named(dev) && Refers(stack, name, dev) && AllUnder(stack, dev, Apart(stack))
    ensures Search(Report(stack), name, rank(dev) + 1) == Found(Cut(Leaves(stack, rank, dev, false)))
    decreases 2 * rank(dev) + 1, 0
  {
    hide Look, Named, Children, Refers, AllUnder, Report, LeavesOf, UptoHyphen, Taken, Lost, Cut, SearchAll;
    AllUnderByLayers(stack, dev, Apart(stack));
    LookTaken(stack, name, dev);
    if IsDisk(dev) {
      CutDisk(dev);
    } else if Lost(dev) {
      LostTakenEmpty(stack, dev);
      NoneFound(Report(stack), rank(dev));
      assert Cut([]) == [];
    } else {
      ChildrenNamed(stack, dev);
      TakenIsChildren(stack, dev);
      FoundIsVisibleOf(stack, rank, Children(stack, dev), rank(dev));
    }
  }

  lemma CutDisk(dev: Dev)
    requires IsDisk(dev) && Named(dev)
    ensures Cut(["/dev/" + dev.disk]) == ["/dev/" + dev.disk[..3]]
  {
    assert ("/dev/" + dev.disk)[..8] == "/dev/" + dev.disk[..3];
  }

  lemma LostTakenEmpty(stack: Stack, dev: Dev)
    requires Lost(dev) && Apart(stack)(dev)
    ensures Taken(stack, dev) == []
  {
  }

  lemma {:induction false} FoundIsVisibleOf(stack: Stack, rank: Dev -> nat, devs: seq<Dev>, bound: nat)
    requires stack.Valid() && Layered(stack, rank) && AllLower(rank, devs, bound)
    requires forall d :: d in devs ==> Named(d) && AllUnder(stack, d, Apart(stack))
    ensures SearchAll(Report(stack), Names(devs), bound) == Found(Cut(LeavesOf(stack, rank, devs, bound, false)))
    decreases 2 * bound, |devs|
  {
    hide *;
    if devs == [] {
      NoneFound(Report(stack), bound);
      LeavesOfNone(stack, rank, bound, false);
      assert Cut([]) == [];
    } else {
      var init, last := devs[..|devs| - 1], devs[|devs| - 1];
      assert last in devs && forall d :: d in init ==> d in devs;
      FoundOfLast(Report(stack), devs, bound);
      LeavesOfLast(stack, rank, devs, bound, false);
      FoundIsVisibleOf(stack, rank, init, bound);
      ReferName(stack, last);
      FoundIsVisible(stack, rank, Name(last), last);
      SearchStays(Report(stack), Name(last), rank(last) + 1, bound);
      CutAppend(LeavesOf(stack, rank, init, bound, false), Leaves(stack, rank, last, false));
    }
  }

  // Behind a lost name there are disks, so the visible ones fall short.
  lemma {:induction false} VisibleShort(stack: Stack, rank: Dev -> nat, dev: Dev)
    requires stack.Valid() && Layered(stack, rank) && Named(dev) && AllUnder(stack, dev, Held(stack))
    ensures |Leaves(stack, rank, dev, true)| > 0
    ensures |Leaves(stack, rank, dev, true)| >= |Leaves(stack, rank, dev, false)|
    ensures Cut(Leaves(stack, rank, dev, false)) == Leaves(stack, rank, dev, true)
      ==> AllUnder(stack, dev, TakenRight())
    decreases 2 * rank(dev) + 1, 0
  {
    hide Children, AllUnder, LeavesOf, Lost, Cut, Named;
    AllUnderByLayers(stack, dev, Held(stack));
    ChildrenNamed(stack, dev);
    if IsDisk(dev) {
      DiskUnderNone(stack, dev);
      if Cut(["/dev/" + dev.disk]) == ["/dev/" + dev.disk] {
        RightIfUncut(dev);
        AllUnderFromLayers(stack, dev, TakenRight());
      }
    } else {
      VisibleShortOf(stack, rank, Children(stack, dev), rank(dev));
      if !Lost(dev) && forall c :: c in Children(stack, dev) ==> AllUnder(stack, c, TakenRight()) {
        AllUnderFromLayers(stack, dev, TakenRight());
      }
    }
  }

  lemma DiskUnderNone(stack: Stack, dev: Dev)
    requires IsDisk(dev)
    ensures Children(stack, dev) == [] && !Lost(dev)
  {
  }

  lemma RightIfUncut(dev: Dev)
    requires IsDisk(dev) && Named(dev) && Cut(["/dev/" + dev.disk]) == ["/dev/" + dev.disk]
    ensures |dev.disk| == 3
  {
    assert Cut(["/dev/" + dev.disk])[0] == "/dev/" + dev.disk;
  }

  lemma {:induction false} VisibleShortOf(stack: Stack, rank: Dev -> nat, devs: seq<Dev>, bound: nat)
    requires stack.Valid() && Layered(stack, rank) && AllLower(rank, devs, bound)
    requires forall d :: d in devs ==> Named(d) && AllUnder(stack, d, Held(stack))
    ensures |LeavesOf(stack, rank, devs, bound, true)| >= |LeavesOf(stack, rank, devs, bound, false)|
    ensures devs != [] ==> |LeavesOf(stack, rank, devs, bound, true)| > 0
    ensures Cut(LeavesOf(stack, rank, devs, bound, false)) == LeavesOf(stack, rank, devs, bound, true)
      ==> forall d :: d in devs ==> AllUnder(stack, d, TakenRight())
    decreases 2 * bound, |devs|
  {
    hide Children, AllUnder, Leaves, LeavesOf, Layered, Cut, Named;
    if devs == [] {
      LeavesOfNone(stack, rank, bound, true);
      LeavesOfNone(stack, rank, bound, false);
    } else {
      var init, last := devs[..|devs| - 1], devs[|devs| - 1];
      assert last in devs && forall d :: d in devs <==> d in init || d == last;
      LeavesOfLast(stack, rank, devs, bound, true);
      LeavesOfLast(stack, rank, devs, bound, false);
      VisibleShortOf(stack, rank, init, bound);
      VisibleShort(stack, rank, last);
      CutAppend(LeavesOf(stack, rank, init, bound, false), Leaves(stack, rank, last, false));
      SamePieces(
        Cut(LeavesOf(stack, rank, init, bound, false)), Cut(Leaves(stack, rank, last, false)),
        LeavesOf(stack, rank, init, bound, true), Leaves(stack, rank, last, true));
    }
  }

  lemma SamePieces(a: seq<string>, b: seq<string>, c: seq<string>, d: seq<string>)
    requires |a| <= |c| && |b| <= |d|
    ensures a + b == c + d ==> a == c && b == d
  {
    if a + b == c + d {
      assert |a| == |c|;
      assert a == (a + b)[..|a|] && b == (a + b)[|a|..];
      assert c == (c + d)[..|a|] && d == (c + d)[|a|..];
    }
  }

  // The search ends, and finds exactly the disks if and only if no name of a
  // device under it is taken wrong.
  lemma FindsDisksIff(stack: Stack, rank: Dev -> nat, name: string, dev: Dev)
    requires stack.Valid() && Layered(stack, rank) && Named(dev) && Refers(stack, name, dev)
    requires AllUnder(stack, dev, Held(stack)) && AllUnder(stack, dev, Apart(stack))
    ensures Search(Report(stack), name, rank(dev) + 1).Found?
    ensures Search(Report(stack), name, rank(dev) + 1) == Found(Leaves(stack, rank, dev, true))
      <==> AllUnder(stack, dev, TakenRight())
  {
    hide *;
    FoundIsVisible(stack, rank, name, dev);
    VisibleShort(stack, rank, dev);
    if AllUnder(stack, dev, TakenRight()) {
      RightNamesFound(stack, rank, name, dev);
    }
  }

  // As a set, what is found is right if and only if every disk has three
  // letters and lies under the device by a way without lost names.
  lemma DiskSetIff(stack: Stack, rank: Dev -> nat, name: string, dev: Dev)
    requires stack.Valid() && Layered(stack, rank) && Named(dev) && Refers(stack, name, dev)
    requires AllUnder(stack, dev, Apart(stack))
    ensures SearchEnds(Report(stack), name)
    ensures
      var disks, visible := Leaves(stack, rank, dev, true), Leaves(stack, rank, dev, false);
      (forall d :: Leaf(Report(stack), name, d) <==> d in disks)
      <==> forall d :: d in disks ==> |d| == 8 && d in visible
  {
    hide *;
    var disks, visible := Leaves(stack, rank, dev, true), Leaves(stack, rank, dev, false);
    FoundIsVisible(stack, rank, name, dev);
    FoundMeansEnds(Report(stack), name, rank(dev) + 1);
    FoundWithin(Report(stack), name, rank(dev) + 1);
    VisibleAreDisks(stack, rank, dev);
    CutSetIff(visible, disks);
  }

  lemma FoundMeansEnds(sys: System, name: string, n: nat)
    requires Search(sys, name, n).Found?
    ensures SearchEnds(sys, name)
  {
    hide Search;
    assert EndsAt(sys, name, n);
  }

  lemma {:induction false} VisibleAreDisks(stack: Stack, rank: Dev -> nat, dev: Dev)
    requires stack.Valid() && Layered(stack, rank) && Named(dev)
    ensures forall d :: d in Leaves(stack, rank, dev, false) ==> d in Leaves(stack, rank, dev, true)
    ensures forall d :: d in Leaves(stack, rank, dev, true) ==> |d| >= 8
    decreases 2 * rank(dev) + 1, 0
  {
    hide Children, LeavesOf, Lost;
    ChildrenNamed(stack, dev);
    if !IsDisk(dev) {
      VisibleAreDisksOf(stack, rank, Children(stack, dev), rank(dev));
    }
  }

  lemma {:induction false} VisibleAreDisksOf(stack: Stack, rank: Dev -> nat, devs: seq<Dev>, bound: nat)
    requires stack.Valid() && Layered(stack, rank) && AllLower(rank, devs, bound)
    requires forall d :: d in devs ==> Named(d)
    ensures forall d :: d in LeavesOf(stack, rank, devs, bound, false) ==> d in LeavesOf(stack, rank, devs, bound, true)
    ensures forall d :: d in LeavesOf(stack, rank, devs, bound, true) ==> |d| >= 8
    decreases 2 * bound, |devs|
  {
    hide Children, Leaves, Layered, Named;
    if devs != [] {
      var init, last := devs[..|devs| - 1], devs[|devs| - 1];
      assert last in devs && forall d :: d in init ==> d in devs;
      VisibleAreDisksOf(stack, rank, init, bound);
      VisibleAreDisks(stack, rank, last);
    }
  }

  lemma CutSetIff(visible: seq<string>, disks: seq<string>)
    requires forall d :: d in visible ==> d in disks
    requires forall d :: d in disks ==> |d| >= 8
    ensures (forall d :: d in Cut(visible) <==> d in disks) <==> forall d :: d in disks ==> |d| == 8 && d in visible
  {
    hide Cut;
    if forall d :: d in Cut(visible) <==> d in disks {
      forall d | d in disks
        ensures |d| == 8 && d in visible
      {
        var long := Uncut(visible, d);
        var _ := Uncut(visible, long);
        assert long[..8] == long;
      }
    }
    if forall d :: d in disks ==> |d| == 8 && d in visible {
      ShortUncut(visible);
    }
  }

  lemma Uncut(names: seq<string>, d: string) returns (long: string)
    requires d in Cut(names) && forall n :: n in names ==> |n| >= 8
    ensures long in names && d == long[..8] && |d| == 8
  {
    hide Cut;
    var i :| 0 <= i < |Cut(names)| && Cut(names)[i] == d;
    long := names[i];
    assert long in names;
  }

  lemma ShortUncut(names: seq<string>)
    requires forall n :: n in names ==> |n| == 8
    ensures Cut(names) == names
  {
    hide Cut;
    forall i | 0 <= i < |names|
      ensures Cut(names)[i] == names[i]
    {
      assert names[i] in names;
    }
  }

  // The partition sdaa1 is taken for one of sda.
  lemma LongNameIsCut(sys: System)
    ensures Name(Slice("sdaa", "1")) == "/dev/sdaa1"
    ensures Look(sys, "/dev/sdaa1") == Disk("/dev/sda")
  {
    var dev := Slice("sdaa", "1");
    assert "sdaa"[..2] == "sd" && "sdaa"[..3] == "sda";
    assert DiskName("sdaa");
    LookDisk(sys, dev);
    assert "/dev/" + "sda" == "/dev/sda";
  }

  // A partition of an array is taken to lie on nothing, whatever the array has
  // for members: the search succeeds without a disk.
  lemma ArrayPartitionIsLost(stack: Stack)
    requires stack.Valid()
    ensures Name(ArraySlice("md0", "1")) == "/dev/md0p1"
    ensures Search(Report(stack), "/dev/md0p1", 1) == Found([])
  {
    hide Look, Report;
    var dev := ArraySlice("md0", "1");
    assert Name(dev) == "/dev/md0p1";
    assert "md0"[2..] == "0";
    LookTaken(stack, Name(dev), dev);
  }

  const TWO_GROUPS := Stack([], [Physical(Slice("sda", "1"), "my-vg"), Physical(Slice("sdb", "1"), "my")], map[])

  // The group my-vg is taken for the group my, and the disk of that is found.
  lemma OtherGroupFound()
    ensures TWO_GROUPS.Valid()
    ensures
      var dev := Volume("my-vg", "root");
      && Name(dev) == "/dev/mapper/my--vg-root"
      && Children(TWO_GROUPS, dev) == [Slice("sda", "1")]
      && Search(Report(TWO_GROUPS), Name(dev), 2) == Found(["/dev/sdb"])
  {
    hide Look, Report, Name, Named, Children, Taken;
    var b, dev := Slice("sdb", "1"), Volume("my-vg", "root");
    GroupsValid();
    assert TWO_GROUPS.physicals[0].vg == "my-vg" && TWO_GROUPS.physicals[1].vg == "my";
    GroupsTaken(TWO_GROUPS, dev);
    LookTaken(TWO_GROUPS, Name(dev), dev);
    assert Refers(TWO_GROUPS, Name(b), b);
    LookTaken(TWO_GROUPS, Name(b), b);
    assert Names([b]) == [Name(b)];
    OneDevice(Report(TWO_GROUPS), Name(dev), Name(b), "/dev/sdb");
  }

  lemma GroupsValid()
    ensures TWO_GROUPS.Valid() && Named(Slice("sdb", "1")) && "/dev/" + "sdb"[..3] == "/dev/sdb"
  {
    assert "sda"[..2] == "sd" && "sdb"[..2] == "sd" && "sdb"[..3] == "sdb";
  }

  lemma GroupsTaken(stack: Stack, dev: Dev)
    requires dev == Volume("my-vg", "root") && |stack.physicals| == 2
    requires exists i :: 0 <= i < 2 && stack.physicals[i].vg == "my-vg" && stack.physicals[1 - i].vg == "my"
    ensures Named(dev) && Name(dev) == "/dev/mapper/my--vg-root"
    ensures
      var p, q := stack.physicals[0], stack.physicals[1];
      && Children(stack, dev) == [if p.vg == "my-vg" then p.dev else q.dev]
      && Taken(stack, dev) == [if p.vg == "my-vg" then q.dev else p.dev]
  {
    hide Doubled, UptoHyphen, PhysicalsOf;
    assert "my" + "-" + "vg" == "my-vg";
    HyphenIn("my", "vg");
    assert stack.physicals == [stack.physicals[0], stack.physicals[1]];
    OneOfTwo(stack.physicals[0], stack.physicals[1]);
    PlainDoubled("my");
    PlainDoubled("vg");
    PlainDoubled("root");
  }

  lemma HyphenIn(s: string, t: string)
    requires '-' !in s
    ensures UptoHyphen(s + "-" + t) == s
    ensures Doubled(s + "-" + t) == Doubled(s) + "--" + Doubled(t)
  {
    BeforeFirst(s, '-', t);
    DoubledJoin(s, t);
  }

  lemma OneOfTwo(p: Physical, q: Physical)
    requires p.vg != q.vg
    ensures PhysicalsOf([p, q], p.vg) == [p.dev] && PhysicalsOf([p, q], q.vg) == [q.dev]
  {
    assert [p, q][1..] == [q] && [q][1..] == [];
    assert PhysicalsOf([q], p.vg) == [] && PhysicalsOf([q], q.vg) == [q.dev];
  }

  lemma {:induction false} DoubledJoin(s: string, t: string)
    ensures Doubled(s + "-" + t) == Doubled(s) + "--" + Doubled(t)
  {
    var all := s + "-" + t;
    if s == "" {
      assert all[1..] == t;
    } else {
      assert all[1..] == s[1..] + "-" + t;
      DoubledJoin(s[1..], t);
    }
  }

  lemma {:induction false} PlainDoubled(s: string)
    requires '-' !in s
    ensures Doubled(s) == s
  {
    if s != "" {
      PlainDoubled(s[1..]);
      assert s == [s[0]] + s[1..];
    }
  }

  lemma OneDevice(sys: System, name: string, below: string, disk: string)
    requires Look(sys, name) == Built([below]) && Look(sys, below) == Disk(disk)
    ensures Search(sys, name, 2) == Found([disk])
  {
    hide Look;
    var on := [below];
    assert on[..|on| - 1] == [];
    assert Search(sys, below, 1) == Found([disk]) && [] + [disk] == [disk];
  }

  ghost function TakenOn(stack: Stack): Dev -> set<Dev> {
    dev => set d | d in Taken(stack, dev)
  }

  // On a stack the search ends if and only if no circle can be reached through
  // what names are taken to lie on; if it ends it succeeds.
  lemma StackEndsIff(stack: Stack, name: string, dev: Dev)
    requires stack.Valid() && Named(dev) && Refers(stack, name, dev)
    ensures SearchEnds(Report(stack), name) <==> !GoesOn(TakenOn(stack), dev)
    ensures forall n: nat :: !Search(Report(stack), name, n).Failed?
  {
    hide Bounded, GoesOn, Search, Report, Named, Refers, TakenOn;
    forall n: nat
      ensures EndsAt(Report(stack), name, n) <==> Bounded(TakenOn(stack), dev, n)
      ensures !Search(Report(stack), name, n).Failed?
    {
      TakenWithin(stack, name, dev, n);
    }
    TakenBounded(stack, dev);
    if SearchEnds(Report(stack), name) {
      var n: nat :| EndsAt(Report(stack), name, n);
      assert Bounded(TakenOn(stack), dev, n);
    }
    if n: nat :| Bounded(TakenOn(stack), dev, n) {
      assert EndsAt(Report(stack), name, n);
    }
  }

  lemma TakenBounded(stack: Stack, dev: Dev)
    ensures (exists n: nat :: Bounded(TakenOn(stack), dev, n)) <==> !GoesOn(TakenOn(stack), dev)
  {
    hide Bounded, Taken;
    forall d
      ensures TakenOn(stack)(d) <= Parts(stack)
    {
      TakenIsParts(stack, d);
    }
    BoundedSomewhere(TakenOn(stack), Parts(stack), dev);
  }

  // All the devices others lie on.
  ghost function Parts(stack: Stack): set<Dev> {
    InRaids(stack.raids) + set p | p in stack.physicals :: p.dev
  }

  ghost function InRaids(raids: seq<Raid>): set<Dev> {
    if raids == [] then {} else (set m | m in raids[0].members :: m.dev) + InRaids(raids[1..])
  }

  lemma {:induction false} RaidInRaids(raids: seq<Raid>)
    ensures forall r, m :: r in raids && m in r.members ==> m.dev in InRaids(raids)
  {
    if raids != [] {
      RaidInRaids(raids[1..]);
      assert raids == [raids[0]] + raids[1..];
    }
  }

  lemma TakenIsParts(stack: Stack, dev: Dev)
    ensures forall d :: d in Taken(stack, dev) ==> d in Parts(stack)
  {
    hide UptoHyphen, InRaids;
    RaidInRaids(stack.raids);
    match dev
    case Array(md) => MembersAre(stack.raids, md, d => d in Parts(stack));
    case Volume(vg, _) => PhysicalsAre(stack.physicals, UptoHyphen(vg), d => d in Parts(stack));
    case _ =>
  }

  lemma TakenNamed(stack: Stack, dev: Dev)
    requires stack.Valid() && Named(dev)
    ensures forall d :: d in Taken(stack, dev) ==> Named(d)
  {
    hide Named, UptoHyphen;
    if dev.Volume? {
      PhysicalsAre(stack.physicals, UptoHyphen(dev.vg), d => Named(d));
    } else {
      ChildrenNamed(stack, dev);
    }
  }

  lemma {:induction false} TakenWithin(stack: Stack, name: string, dev: Dev, n: nat)
    requires stack.Valid() && Named(dev) && Refers(stack, name, dev)
    ensures EndsAt(Report(stack), name, n) <==> Bounded(TakenOn(stack), dev, n)
    ensures !Search(Report(stack), name, n).Failed?
    decreases n, 0
  {
    hide Look, Named, Refers, Report, Taken, SearchAll, Bounded;
    LookTaken(stack, name, dev);
    TakenNamed(stack, dev);
    BoundedByLayers(TakenOn(stack), dev, n);
    if IsDisk(dev) {
      DiskTakesNone(stack, dev);
    } else if n > 0 {
      AllTakenWithin(stack, Taken(stack, dev), n - 1);
      assert forall d :: d in TakenOn(stack)(dev) <==> d in Taken(stack, dev);
    }
  }

  lemma DiskTakesNone(stack: Stack, dev: Dev)
    requires IsDisk(dev)
    ensures TakenOn(stack)(dev) == {}
  {
  }

  lemma {:induction false} AllTakenWithin(stack: Stack, devs: seq<Dev>, n: nat)
    requires stack.Valid() && forall d :: d in devs ==> Named(d)
    ensures !SearchAll(Report(stack), Names(devs), n).Unfinished? <==>
      forall d :: d in devs ==> Bounded(TakenOn(stack), d, n)
    ensures !SearchAll(Report(stack), Names(devs), n).Failed?
    decreases n, |devs| + 1
  {
    hide Named, Refers, Report, SearchAll, Search, Bounded, TakenOn, Name, Names;
    if devs == [] {
      NoneFound(Report(stack), n);
    } else {
      var init, last := devs[..|devs| - 1], devs[|devs| - 1];
      assert last in devs && forall d :: d in devs <==> d in init || d == last;
      FoundOfLast(Report(stack), devs, n);
      AllTakenWithin(stack, init, n);
      ReferName(stack, last);
      TakenWithin(stack, Name(last), last, n);
    }
  }

  // In particular no circle can be reached if the name of no group is cut to
  // that of another for a volume that others lie on.
  lemma NestedApartEnds(stack: Stack, rank: Dev -> nat, name: string, dev: Dev)
    requires stack.Valid() && Layered(stack, rank) && Named(dev) && Refers(stack, name, dev)
    requires forall d :: d in Parts(stack) ==> Apart(stack)(d)
    ensures SearchEnds(Report(stack), name)
  {
    hide Circular, TakenOn, SearchEnds, Named, Refers, Parts, Search, Apart;
    if s: set<Dev> :| Circular(TakenOn(stack), s) && dev in s {
      var part := SuccInCircle(TakenOn(stack), dev, s);
      TakenIsPart(stack, dev, part);
      NoCircleOfParts(stack, rank, part, s);
    }
    StackEndsIff(stack, name, dev);
  }

  lemma TakenIsPart(stack: Stack, dev: Dev, part: Dev)
    requires part in TakenOn(stack)(dev)
    ensures part in Parts(stack)
  {
    TakenIsParts(stack, dev);
  }

  lemma {:induction false} NoCircleOfParts(stack: Stack, rank: Dev -> nat, part: Dev, s: set<Dev>)
    requires Layered(stack, rank) && Circular(TakenOn(stack), s) && part in Parts(stack)
    requires forall d :: d in Parts(stack) ==> Apart(stack)(d)
    ensures part !in s
    decreases rank(part)
  {
    hide Circular, Children, Parts, Apart, Lost;
    if part in s {
      var next := SuccInCircle(TakenOn(stack), part, s);
      TakenIsPart(stack, part, next);
      if Lost(part) {
        LostTakenEmpty(stack, part);
      } else {
        TakenIsChildren(stack, part);
      }
      assert next in Children(stack, part);
      NoCircleOfParts(stack, rank, next, s);
    }
  }

  const SELF_NESTED := Stack([], [Physical(Volume("my-vg", "root"), "my"), Physical(Slice("sda", "1"), "my-vg")], map[])

  ghost function NestedRank(): Dev -> nat {
    (dev: Dev) => if dev.Volume? then (if dev.vg == "my" then 2 else 1) else if dev.ArraySlice? then 1 else 0
  }

  // A volume of the group my-vg under the group my: the stack has no circle,
  // but that name is taken for one of my, so for lying on itself.
  lemma SelfNestedNeverEnds()
    ensures SELF_NESTED.Valid() && Layered(SELF_NESTED, NestedRank())
    ensures !SearchEnds(Report(SELF_NESTED), "/dev/mapper/my--vg-root")
  {
    hide Report, SearchEnds, Taken, Circular, Layered;
    var dev := Volume("my-vg", "root");
    SelfNestedValid();
    assert SELF_NESTED.physicals[1].vg == "my-vg" && SELF_NESTED.physicals[0].vg == "my";
    GroupsTaken(SELF_NESTED, dev);
    var s := {dev};
    assert TakenOn(SELF_NESTED)(dev) == s;
    MutualSuccessors(TakenOn(SELF_NESTED), dev, dev);
    StackEndsIff(SELF_NESTED, Name(dev), dev);
  }

  lemma SelfNestedValid()
    ensures SELF_NESTED.Valid() && Layered(SELF_NESTED, NestedRank())
  {
    assert "sda"[..2] == "sd";
    hide DiskName, Number, PhysicalsOf;
    var p, q := SELF_NESTED.physicals[0], SELF_NESTED.physicals[1];
    assert SELF_NESTED.physicals == [p, q];
    forall vg, c | c in PhysicalsOf([p, q], vg)
      ensures (vg == "my" && c == p.dev) || (vg == "my-vg" && c == q.dev)
    {
      PhysicalsOfTwo(p, q, vg, c);
    }
  }

  lemma PhysicalsOfTwo(p: Physical, q: Physical, vg: string, c: Dev)
    requires c in PhysicalsOf([p, q], vg)
    ensures (vg == p.vg && c == p.dev) || (vg == q.vg && c == q.dev)
  {
    assert [p, q][1..] == [q] && [q][1..] == [];
    assert PhysicalsOf([q], vg) == if vg == q.vg then [q.dev] else [];
  }
}
