// find_base_devices and find_boot_devices: from a mounted device down through
// RAID arrays and volume groups to the disks.
module StorageStack {
  import opened Graph
  import opened Order
  import opened Common

  // What the system says: blkid's device for a UUID, /proc/mdstat and the
  // output of pvs (None if it fails) as lines of words.
  datatype System = System(
    blkid: map<string, string>, mdstat: seq<seq<string>>, pvs: Option<seq<seq<string>>>)

  // What one device is: not understood, a disk, or built on others.
  datatype Layer = Unknown | Disk(name: string) | Built(on: seq<string>)

  predicate StartsWith(s: string, prefix: string) {
    prefix <= s
  }

  // s[n:] and s[:n]
  function From(s: string, n: nat): string {
    if n <= |s| then s[n..] else ""
  }

  function Upto(s: string, n: nat): string {
    if n <= |s| then s[..n] else s
  }

  // What comes before the first c, if there is one.
  function Before(s: string, c: char): Option<string> {
    if s == "" then None
    else if s[0] == c then Some("")
    else
      match Before(s[1..], c)
      case None => None
      case Some(rest) => Some([s[0]] + rest)
  }

  // The members of an array, each "name[number]"; None if one is not.
  function Members(words: seq<string>): Option<seq<string>> {
    if words == [] then Some([])
    else
      match (Before(words[0], '['), Members(words[1..]))
      case (Some(d), Some(rest)) => Some(["/dev/" + d] + rest)
      case _ => None
  }

  // The first line of an array's own counts.
  function ArrayMembers(mdstat: seq<seq<string>>, base: string): Option<seq<string>> {
    if mdstat == [] then Some([])
    else if |mdstat[0]| >= 5 && mdstat[0][0] == base then Members(mdstat[0][4..])
    else ArrayMembers(mdstat[1..], base)
  }

  // All physical volumes of a volume group.
  function Volumes(pvs: seq<seq<string>>, vg: string): seq<string> {
    if pvs == [] then []
    else
      (if |pvs[0]| >= 2 && pvs[0][1] == vg then [pvs[0][0]] else []) + Volumes(pvs[1..], vg)
  }

  function OrUnknown(devs: Option<seq<string>>): Layer {
    match devs
    case None => Unknown
    case Some(on) => Built(on)
  }

  function LayerOf(sys: System, base: string): Layer {
    if StartsWith(base, "md") then OrUnknown(ArrayMembers(sys.mdstat, base))
    else if StartsWith(base, "mapper/") then
      match (Before(From(base, 7), '-'), sys.pvs)
      case (Some(vg), Some(pvs)) => Built(Volumes(pvs, vg))
      case _ => Unknown
    else if StartsWith(base, "sd") || StartsWith(base, "hd") then Disk("/dev/" + Upto(base, 3))
    else Unknown
  }

  function Look(sys: System, dev: string): Layer {
    if StartsWith(dev, "UUID=") then
      if dev in sys.blkid then LayerOf(sys, From(sys.blkid[dev], 5)) else Unknown
    else if StartsWith(dev, "/dev/") then LayerOf(sys, From(dev, 5))
    else Unknown
  }

  ghost function Under(sys: System): string -> set<string> {
    dev => if Look(sys, dev).Built? then (set d | d in Look(sys, dev).on) else {}
  }

  // What has come of the search after going down n layers.
  datatype Result = Unfinished | Failed | Found(disks: seq<string>)

  // The disks found under a device, in order and with repetitions; a failure
  // if some device is not understood.
  ghost function Search(sys: System, dev: string, n: nat): Result
    decreases n, 0
  {
    if n == 0 then Unfinished
    else
      match Look(sys, dev)
      case Unknown => Failed
      case Disk(name) => Found([name])
      case Built(on) => SearchAll(sys, on, n - 1)
  }

  // One after the other, up to the first failure.
  ghost function SearchAll(sys: System, devs: seq<string>, n: nat): Result
    decreases n, |devs| + 1
  {
    if devs == [] then Found([])
    else
      match SearchAll(sys, devs[..|devs| - 1], n)
      case Found(first) =>
        (match Search(sys, devs[|devs| - 1], n)
         case Found(last) => Found(first + last)
         case r => r)
      case r => r
  }

  ghost predicate EndsAt(sys: System, dev: string, n: nat) {
    !Search(sys, dev, n).Unfinished?
  }

  ghost predicate SearchEnds(sys: System, dev: string) {
    exists n: nat :: EndsAt(sys, dev, n)
  }

  // More layers change nothing once the search has ended.
  lemma {:induction false} SearchStays(sys: System, dev: string, n: nat, m: nat)
    requires !Search(sys, dev, n).Unfinished? && n <= m
    ensures Search(sys, dev, m) == Search(sys, dev, n)
    decreases n, 0
  {
    hide Look;
    if Look(sys, dev).Built? {
      AllStays(sys, Look(sys, dev).on, n - 1, m - 1);
    }
  }

  lemma {:induction false} AllStays(sys: System, devs: seq<string>, n: nat, m: nat)
    requires !SearchAll(sys, devs, n).Unfinished? && n <= m
    ensures SearchAll(sys, devs, m) == SearchAll(sys, devs, n)
    decreases n, |devs| + 1
  {
    hide Search;
    if devs != [] {
      var init, last := devs[..|devs| - 1], devs[|devs| - 1];
      AllStays(sys, init, n, m);
      if SearchAll(sys, init, n).Found? {
        SearchStays(sys, last, n, m);
      }
    }
  }

  method FindBaseDevices(sys: System, dev: string, ghost n: nat) returns (found: Option<seq<string>>)
    requires EndsAt(sys, dev, n)
    ensures Search(sys, dev, n) == if found.Some? then Found(found.value) else Failed
    decreases n
  {
    hide Look;
    var layer := Look(sys, dev);
    if layer.Unknown? {
      return None;
    }
    if layer.Disk? {
      return Some([layer.name]);
    }
    var subdevs: seq<string> := [];
    var on := layer.on;
    for i := 0 to |on|
      invariant SearchAll(sys, on[..i], n - 1) == Found(subdevs)
    {
      assert on[..i + 1][..i] == on[..i];
      PrefixDecides(sys, on, n - 1, i + 1);
      var below := FindBaseDevices(sys, on[i], n - 1);
      if below.None? {
        return None;
      }
      subdevs := subdevs + below.value;
    }
    assert on[..|on|] == on;
    return Some(subdevs);
  }

  // What does not end with a list for the first devices, does not for all.
  lemma {:induction false} PrefixDecides(sys: System, devs: seq<string>, n: nat, i: nat)
    requires i <= |devs|
    ensures !SearchAll(sys, devs[..i], n).Found? ==> SearchAll(sys, devs, n) == SearchAll(sys, devs[..i], n)
    decreases |devs|
  {
    if i < |devs| {
      var init := devs[..|devs| - 1];
      assert init[..i] == devs[..i];
      PrefixDecides(sys, init, n, i);
    } else {
      assert devs[..i] == devs;
    }
  }

  // All the devices something can be built on.
  ghost function Devices(sys: System): set<string> {
    InArrays(sys.mdstat) + (if sys.pvs.Some? then set p | p in sys.pvs.value && |p| >= 2 :: p[0] else {})
  }

  ghost function InArrays(mdstat: seq<seq<string>>): set<string> {
    if mdstat == [] then {}
    else
      (if |mdstat[0]| >= 5 && Members(mdstat[0][4..]).Some? then Elements(Members(mdstat[0][4..]).value) else {})
      + InArrays(mdstat[1..])
  }

  lemma {:induction false} ArrayInArrays(mdstat: seq<seq<string>>, base: string)
    ensures ArrayMembers(mdstat, base).Some? ==> Elements(ArrayMembers(mdstat, base).value) <= InArrays(mdstat)
  {
    if mdstat != [] {
      ArrayInArrays(mdstat[1..], base);
    }
  }

  // The first words of the lines whose second is the group.
  lemma {:induction false} VolumesListed(pvs: seq<seq<string>>, vg: string)
    ensures forall d :: d in Volumes(pvs, vg) <==> exists p :: p in pvs && |p| >= 2 && p[0] == d && p[1] == vg
  {
    if pvs != [] {
      VolumesListed(pvs[1..], vg);
      assert pvs == [pvs[0]] + pvs[1..];
    }
  }

  lemma UnderIsDevices(sys: System, dev: string)
    ensures Under(sys)(dev) <= Devices(sys)
  {
    hide Members, Before;
    if Look(sys, dev).Built? {
      var base := if StartsWith(dev, "UUID=") then From(sys.blkid[dev], 5) else From(dev, 5);
      assert Look(sys, dev) == LayerOf(sys, base);
      if StartsWith(base, "md") {
        ArrayInArrays(sys.mdstat, base);
      } else {
        VolumesListed(sys.pvs.value, Before(From(base, 7), '-').value);
      }
    }
  }

  // Names the search fails on: without /dev/ or UUID=, of another kind than md,
  // mapper/, sd and hd, of a mapped device without a hyphen or a UUID that
  // blkid does not know.
  lemma NotUnderstood(sys: System, dev: string, base: string)
    ensures !("/dev/" <= dev) && !("UUID=" <= dev) ==> Search(sys, dev, 1) == Failed
    ensures "UUID=" <= dev && dev !in sys.blkid ==> Search(sys, dev, 1) == Failed
    ensures dev == "/dev/" + base && !("md" <= base) && !("mapper/" <= base) && !("sd" <= base) && !("hd" <= base) ==>
      Search(sys, dev, 1) == Failed
    ensures "UUID=" <= dev && dev in sys.blkid && |sys.blkid[dev]| < 5 ==> Search(sys, dev, 1) == Failed
    ensures dev == "/dev/mapper/" + base && ('-' !in base || sys.pvs.None?) ==> Search(sys, dev, 1) == Failed
  {
    hide Members;
    if dev == "/dev/" + base {
      assert dev[0] == '/' && dev[5..] == base;
    }
    if dev == "/dev/mapper/" + base {
      assert dev[0] == '/' && "/dev/mapper/" == "/dev/" + "mapper/" && dev[5..] == "mapper/" + base;
      assert ("mapper/" + base)[7..] == base && ("mapper/" + base)[1] == 'a';
      NoneBefore(base, '-');
    }
  }

  lemma {:induction false} NoneBefore(s: string, c: char)
    ensures Before(s, c).None? <==> c !in s
  {
    if s != "" {
      NoneBefore(s[1..], c);
      assert s == [s[0]] + s[1..];
    }
  }

  // The disks under a device.
  ghost predicate Leaf(sys: System, dev: string, disk: string) {
    exists d :: Reaches(Under(sys), dev, d) && Look(sys, d) == Disk(disk)
  }

  ghost predicate Understood(sys: System, dev: string) {
    forall d :: Reaches(Under(sys), dev, d) ==> !Look(sys, d).Unknown?
  }

  lemma UnderstoodByLayers(sys: System, dev: string)
    ensures Understood(sys, dev) <==>
      !Look(sys, dev).Unknown? && forall d :: d in Under(sys)(dev) ==> Understood(sys, d)
  {
    hide Look, Reaches;
    var succ := Under(sys);
    RootReached(succ, {dev}, dev);
    forall d, e | d in succ(dev) && Reaches(succ, d, e)
      ensures Reaches(succ, dev, e)
    {
      StepFirst(succ, dev, d, e);
    }
    forall e | Reaches(succ, dev, e)
      ensures e == dev || exists d :: d in succ(dev) && Reaches(succ, d, e)
    {
      FirstStep(succ, dev, e);
    }
  }

  lemma LeafByLayers(sys: System, dev: string, disk: string)
    ensures Leaf(sys, dev, disk) <==>
      Look(sys, dev) == Disk(disk) || exists d :: d in Under(sys)(dev) && Leaf(sys, d, disk)
  {
    hide Look, Reaches;
    var succ := Under(sys);
    RootReached(succ, {dev}, dev);
    if Leaf(sys, dev, disk) {
      var e :| Reaches(succ, dev, e) && Look(sys, e) == Disk(disk);
      FirstStep(succ, dev, e);
      if e != dev {
        var d :| d in succ(dev) && Reaches(succ, d, e);
        assert d in succ(dev) && Leaf(sys, d, disk);
      }
    }
    if d :| d in succ(dev) && Leaf(sys, d, disk) {
      var e :| Reaches(succ, d, e) && Look(sys, e) == Disk(disk);
      StepFirst(succ, dev, d, e);
    }
  }

  // The search finds a list within n layers exactly if everything under the
  // device is understood and there are no more layers; the list then holds
  // exactly the disks under it.
  lemma {:induction false} FoundWithin(sys: System, dev: string, n: nat)
    ensures Search(sys, dev, n).Found? <==> Understood(sys, dev) && Bounded(Under(sys), dev, n)
    ensures Search(sys, dev, n).Found? ==>
      forall disk :: disk in Search(sys, dev, n).disks <==> Leaf(sys, dev, disk)
    decreases n, 0
  {
    hide Look, Understood, Leaf, Bounded;
    UnderstoodByLayers(sys, dev);
    forall disk
      ensures Leaf(sys, dev, disk) <==>
        Look(sys, dev) == Disk(disk) || exists d :: d in Under(sys)(dev) && Leaf(sys, d, disk)
    {
      LeafByLayers(sys, dev, disk);
    }
    BoundedByLayers(Under(sys), dev, n);
    if n > 0 && Look(sys, dev).Built? {
      var on := Look(sys, dev).on;
      AllFoundWithin(sys, on, n - 1);
      assert forall d :: d in Under(sys)(dev) <==> d in on;
    } else {
      assert Under(sys)(dev) == {} || n == 0;
    }
  }

  lemma {:induction false} AllFoundWithin(sys: System, devs: seq<string>, n: nat)
    ensures SearchAll(sys, devs, n).Found? <==>
      forall d :: d in devs ==> Understood(sys, d) && Bounded(Under(sys), d, n)
    ensures SearchAll(sys, devs, n).Found? ==>
      forall disk :: disk in SearchAll(sys, devs, n).disks <==> exists d :: d in devs && Leaf(sys, d, disk)
    decreases n, |devs| + 1
  {
    hide Look, Understood, Leaf, Bounded, Search;
    if devs != [] {
      var init, last := devs[..|devs| - 1], devs[|devs| - 1];
      assert forall d :: d in devs <==> d in init || d == last;
      AllFoundWithin(sys, init, n);
      FoundWithin(sys, last, n);
    }
  }

  // The search finds a list at some depth exactly if everything under the
  // device is understood and no circle can be reached; the list then holds
  // exactly the disks under it.
  lemma BaseIsLeaves(sys: System, dev: string)
    ensures (exists n: nat :: FindsAt(sys, dev, n)) <==> Sound(sys, dev)
    ensures forall n: nat, disk :: FindsAt(sys, dev, n) ==>
      (disk in Search(sys, dev, n).disks <==> Leaf(sys, dev, disk))
  {
    hide Search, Understood, Leaf, Bounded, GoesOn, Under;
    forall n: nat, disk | FindsAt(sys, dev, n)
      ensures disk in Search(sys, dev, n).disks <==> Leaf(sys, dev, disk)
    {
      FoundWithin(sys, dev, n);
    }
    UnderBounded(sys, dev);
    if n: nat :| FindsAt(sys, dev, n) {
      FoundWithin(sys, dev, n);
      assert Sound(sys, dev);
    }
    if Sound(sys, dev) {
      var n: nat :| Bounded(Under(sys), dev, n);
      FoundWithin(sys, dev, n);
      assert FindsAt(sys, dev, n);
    }
  }

  ghost predicate FindsAt(sys: System, dev: string, n: nat) {
    Search(sys, dev, n).Found?
  }

  lemma UnderBounded(sys: System, dev: string)
    ensures (exists n: nat :: Bounded(Under(sys), dev, n)) <==> !GoesOn(Under(sys), dev)
  {
    hide Devices, Under, Bounded;
    forall d
      ensures Under(sys)(d) <= Devices(sys)
    {
      UnderIsDevices(sys, d);
    }
    BoundedSomewhere(Under(sys), Devices(sys), dev);
  }

  ghost predicate Sound(sys: System, dev: string) {
    Understood(sys, dev) && !GoesOn(Under(sys), dev)
  }

  // The devices the search comes to from one: those it is built on, up to the
  // first one that fails or does not end.
  ghost function Entered(sys: System): string -> set<string> {
    dev => if Look(sys, dev).Built? then UptoUnsound(sys, Look(sys, dev).on) else {}
  }

  ghost function UptoUnsound(sys: System, devs: seq<string>): set<string> {
    if devs == [] then {}
    else
      var init := devs[..|devs| - 1];
      UptoUnsound(sys, init) + if AllSound(sys, init) then {devs[|devs| - 1]} else {}
  }

  ghost predicate AllSound(sys: System, devs: seq<string>) {
    forall d :: d in devs ==> Sound(sys, d)
  }

  lemma {:induction false} FailedNotUnderstood(sys: System, dev: string, n: nat)
    ensures Search(sys, dev, n).Failed? ==> !Understood(sys, dev)
    decreases n, 0
  {
    hide Look, Understood;
    UnderstoodByLayers(sys, dev);
    if n > 0 && Look(sys, dev).Built? {
      AllFailedNotUnderstood(sys, Look(sys, dev).on, n - 1);
    }
  }

  lemma {:induction false} AllFailedNotUnderstood(sys: System, devs: seq<string>, n: nat)
    ensures SearchAll(sys, devs, n).Failed? ==> exists d :: d in devs && !Understood(sys, d)
    decreases n, |devs| + 1
  {
    hide Look, Understood, Search;
    if devs != [] {
      var init, last := devs[..|devs| - 1], devs[|devs| - 1];
      AllFailedNotUnderstood(sys, init, n);
      FailedNotUnderstood(sys, last, n);
      assert last in devs && forall d :: d in init ==> d in devs;
    }
  }

  lemma {:induction false} EndsWithin(sys: System, dev: string, n: nat)
    ensures EndsAt(sys, dev, n) <==> Bounded(Entered(sys), dev, n)
    decreases n, 0
  {
    hide Look, UptoUnsound, Bounded;
    BoundedByLayers(Entered(sys), dev, n);
    if n > 0 && Look(sys, dev).Built? {
      var on := Look(sys, dev).on;
      AllEndWithin(sys, on, n - 1);
      assert Entered(sys)(dev) == UptoUnsound(sys, on);
    } else {
      assert Entered(sys)(dev) == {} || n == 0;
    }
  }

  lemma {:induction false} AllEndWithin(sys: System, devs: seq<string>, n: nat)
    ensures !SearchAll(sys, devs, n).Unfinished? <==>
      forall d :: d in UptoUnsound(sys, devs) ==> Bounded(Entered(sys), d, n)
    decreases n, |devs| + 1
  {
    hide Look, Sound, Bounded, Search, Entered;
    if devs != [] {
      var init, last := devs[..|devs| - 1], devs[|devs| - 1];
      AllEndWithin(sys, init, n);
      EndsWithin(sys, last, n);
      if !SearchAll(sys, init, n).Unfinished? {
        SoundIfFound(sys, init, n);
      }
    }
  }

  // Devices searched to their end are sound exactly if none of them failed.
  lemma SoundIfFound(sys: System, devs: seq<string>, n: nat)
    requires !SearchAll(sys, devs, n).Unfinished?
    ensures SearchAll(sys, devs, n).Found? <==> AllSound(sys, devs)
  {
    hide Understood, Bounded, GoesOn, SearchAll;
    AllFoundWithin(sys, devs, n);
    AllFailedNotUnderstood(sys, devs, n);
    if SearchAll(sys, devs, n).Found? {
      forall d | d in devs
        ensures Sound(sys, d)
      {
        UnderBounded(sys, d);
      }
    }
  }

  // The search ends if and only if it can come to no circle.
  lemma SearchEndsIff(sys: System, dev: string)
    ensures SearchEnds(sys, dev) <==> !GoesOn(Entered(sys), dev)
  {
    hide Bounded, GoesOn, Entered, EndsAt;
    EnteredBounded(sys, dev);
    if n: nat :| EndsAt(sys, dev, n) {
      EndsWithin(sys, dev, n);
    }
    if n: nat :| Bounded(Entered(sys), dev, n) {
      EndsWithin(sys, dev, n);
    }
  }

  lemma EnteredBounded(sys: System, dev: string)
    ensures (exists n: nat :: Bounded(Entered(sys), dev, n)) <==> !GoesOn(Entered(sys), dev)
  {
    hide Devices, Under, Entered, Bounded;
    forall d
      ensures Entered(sys)(d) <= Devices(sys)
    {
      EnteredIsUnder(sys, d);
      UnderIsDevices(sys, d);
    }
    BoundedSomewhere(Entered(sys), Devices(sys), dev);
  }

  lemma EnteredIsUnder(sys: System, dev: string)
    ensures Entered(sys)(dev) <= Under(sys)(dev)
  {
    hide Look;
    if Look(sys, dev).Built? {
      UptoIsAll(sys, Look(sys, dev).on);
    }
  }

  lemma {:induction false} UptoIsAll(sys: System, devs: seq<string>)
    ensures UptoUnsound(sys, devs) <= set d | d in devs
  {
    hide AllSound;
    if devs != [] {
      UptoIsAll(sys, devs[..|devs| - 1]);
    }
  }

  // Deletes list elements that equal the one before them, in place.
  method RemoveAdjacent(sorted: seq<string>) returns (devs: seq<string>)
    ensures devs == Uniq(sorted)
  {
    hide Uniq;
    devs := sorted;
    var i := 1;
    if devs == [] {
      NothingToRemove(devs);
      return;
    }
    while i < |devs|
      invariant 1 <= i <= |devs|
      invariant devs[..i - 1] + Uniq(devs[i - 1..]) == Uniq(sorted)
      decreases |devs| - i
    {
      UniqStep(devs, i, Uniq(sorted));
      if devs[i - 1] == devs[i] {
        devs := devs[..i] + devs[i + 1..];
      } else {
        i := i + 1;
      }
    }
    NothingToRemove(devs[i - 1..]);
    assert devs == devs[..i - 1] + devs[i - 1..];
  }

  lemma NothingToRemove(devs: seq<string>)
    requires |devs| < 2
    ensures Uniq(devs) == devs
  {
  }

  lemma UniqStep(devs: seq<string>, i: nat, all: seq<string>)
    requires 1 <= i < |devs|
    requires devs[..i - 1] + Uniq(devs[i - 1..]) == all
    ensures devs[i - 1] == devs[i] ==>
      var shorter := devs[..i] + devs[i + 1..];
      shorter[..i - 1] + Uniq(shorter[i - 1..]) == all
    ensures devs[i - 1] != devs[i] ==> devs[..i] + Uniq(devs[i..]) == all
  {
    var tail := devs[i - 1..];
    assert tail[0] == devs[i - 1] && tail[1] == devs[i] && tail[1..] == devs[i..];
    if devs[i - 1] == devs[i] {
      var shorter := devs[..i] + devs[i + 1..];
      assert shorter[i - 1..] == devs[i..];
      assert shorter[..i - 1] == devs[..i - 1];
    } else {
      assert devs[..i] == devs[..i - 1] + [devs[i - 1]];
    }
  }

  // The disks of /boot, or of / if /boot has no mount of its own.
  method FindBootDevices(sys: System, mounts: map<string, string>) returns (devs: Option<seq<string>>)
    requires "/boot" in mounts ==> SearchEnds(sys, mounts["/boot"])
    requires "/boot" !in mounts && "/" in mounts ==> SearchEnds(sys, mounts["/"])
    ensures "/boot" in mounts ==> (devs.Some? <==> Understood(sys, mounts["/boot"]))
    ensures "/boot" in mounts && devs.Some? ==>
      forall disk :: disk in devs.value <==> Leaf(sys, mounts["/boot"], disk)
    ensures "/boot" !in mounts && "/" in mounts ==> (devs.Some? <==> Understood(sys, mounts["/"]))
    ensures "/boot" !in mounts && "/" in mounts && devs.Some? ==>
      forall disk :: disk in devs.value <==> Leaf(sys, mounts["/"], disk)
    ensures "/boot" !in mounts && "/" !in mounts ==> devs.None?
    ensures devs.Some? ==> StrictlySorted(devs.value)
  {
    hide Understood, Leaf, StrictlySorted, Uniq, Sort, Search, GoesOn, Bounded;
    var mp: string;
    if "/boot" in mounts {
      mp := "/boot";
    } else if "/" in mounts {
      mp := "/";
    } else {
      return None;
    }
    var dev := mounts[mp];
    ghost var n: nat :| EndsAt(sys, dev, n);
    FoundWithin(sys, dev, n);
    FailedNotUnderstood(sys, dev, n);
    var found := FindBaseDevices(sys, dev, n);
    if found.None? {
      return None;
    }
    var unique := RemoveAdjacent(Sort(found.value));
    SortUniqIsSet(found.value);
    return Some(unique);
  }
}
