// copy_kernel_modules: rounds over module lists until a round adds no
// dependencies, skipping what has been processed.
module ModuleClosure {
  import opened Graph
  import opened Order
  import opened Common
  import opened ModuleDeps

  // What get_deps answers for each module: no entry is an error.
  type Dependencies = map<string, seq<string>>

  ghost function Written(moddep: seq<string>, readable: set<string>): Dependencies {
    map j | j in readable && DepsOf(moddep, j).Some? :: DepsOf(moddep, j).value
  }

  // The dependencies of a module that are there to be read.
  ghost function Needs(readable: set<string>, deps: Dependencies): string -> set<string> {
    j => if j in deps then (set k | k in deps[j] && k in readable) else {}
  }

  ghost function Roots(required: seq<string>, readable: set<string>): set<string> {
    set j | j in required && j in readable
  }

  // The readable modules reachable from the required ones through readable
  // modules.
  ghost function Closure(required: seq<string>, readable: set<string>, deps: Dependencies): set<string> {
    set j | j in readable && ReachedFrom(Needs(readable, deps), Roots(required, readable), j)
  }

  predicate NoDuplicates<T(==)>(s: seq<T>) {
    forall i, j :: 0 <= i < j < |s| ==> s[i] != s[j]
  }

  // basename, without a trailing .ko
  function ModuleName(path: string): string {
    var name := path[LastSlash(path)..];
    if |name| >= 3 && name[|name| - 3..] == ".ko" then name[..|name| - 3] else name
  }

  // The modprobe name of dir/name.ko is name.
  lemma NameOfModule(dir: string, name: string)
    requires '/' !in name
    ensures ModuleName(dir + "/" + name + ".ko") == name
  {
    var file := name + ".ko";
    assert dir + "/" + name + ".ko" == dir + "/" + file;
    NoSlashInName(dir, file);
    assert (dir + "/" + file)[|dir| + 1..] == file;
    assert file[|file| - 3..] == ".ko" && file[..|file| - 3] == name;
  }

  function Names(paths: seq<string>): (names: seq<string>)
    ensures |names| == |paths|
  {
    if paths == [] then [] else Names(paths[..|paths| - 1]) + [ModuleName(paths[|paths| - 1])]
  }

  // One round: the readable names of a list that have not been processed are
  // added, in order.
  function Process(tmp: seq<string>, list: seq<string>, readable: set<string>): seq<string> {
    if list == [] then tmp
    else
      var j, before := list[|list| - 1], Process(tmp, list[..|list| - 1], readable);
      if j in readable && j !in before then before + [j] else before
  }

  // The dependencies found on the way, for the next round.
  function Listed(modules: seq<string>, deps: Dependencies): seq<string> {
    if modules == [] then []
    else
      var j := modules[|modules| - 1];
      Listed(modules[..|modules| - 1], deps) + (if j in deps then deps[j] else [])
  }

  lemma {:induction false} ProcessAdds(tmp: seq<string>, list: seq<string>, readable: set<string>)
    requires NoDuplicates(tmp)
    ensures NoDuplicates(Process(tmp, list, readable))
    ensures tmp <= Process(tmp, list, readable)
    ensures forall j :: j in Process(tmp, list, readable) <==> j in tmp || (j in list && j in readable)
  {
    if list != [] {
      var init := list[..|list| - 1];
      ProcessAdds(tmp, init, readable);
      assert forall j :: j in list <==> j in init || j == list[|list| - 1];
    }
  }

  lemma {:induction false} ListedDependencies(modules: seq<string>, deps: Dependencies)
    ensures forall k :: k in Listed(modules, deps) <==>
      exists j :: j in modules && j in deps && k in deps[j]
  {
    if modules != [] {
      var init := modules[..|modules| - 1];
      ListedDependencies(init, deps);
      assert forall j :: j in modules <==> j in init || j == modules[|modules| - 1];
    }
  }

  // Between rounds: what is processed is readable and reached, each once, and
  // all its needs are processed or in the list.
  ghost predicate Pending(required: seq<string>, readable: set<string>, deps: Dependencies,
                          tmp: seq<string>, list: seq<string>)
  {
    var needs, roots := Needs(readable, deps), Roots(required, readable);
    && NoDuplicates(tmp)
    && (forall j :: j in tmp ==> j in readable && ReachedFrom(needs, roots, j))
    && (forall k :: k in list && k in readable ==> ReachedFrom(needs, roots, k))
    && (forall k :: k in roots ==> k in tmp || k in list)
    && (forall j, k :: j in tmp && k in needs(j) ==> k in tmp || k in list)
  }

  lemma PendingAtStart(required: seq<string>, readable: set<string>, deps: Dependencies)
    ensures Pending(required, readable, deps, [], required)
  {
    var needs, roots := Needs(readable, deps), Roots(required, readable);
    forall k | k in required && k in readable
      ensures ReachedFrom(needs, roots, k)
    {
      RootReached(needs, roots, k);
    }
  }

  lemma RoundKeepsPending(required: seq<string>, readable: set<string>, deps: Dependencies,
                          tmp: seq<string>, list: seq<string>, added: seq<string>)
    requires Pending(required, readable, deps, tmp, list)
    requires tmp + added == Process(tmp, list, readable)
    ensures Pending(required, readable, deps, tmp + added, Listed(added, deps))
    ensures added != [] ==> readable - Elements(tmp + added) < readable - Elements(tmp)
  {
    hide Process, Listed, ReachedFrom;
    var needs, roots := Needs(readable, deps), Roots(required, readable);
    ProcessAdds(tmp, list, readable);
    ListedDependencies(added, deps);
    forall k | k in Listed(added, deps) && k in readable
      ensures ReachedFrom(needs, roots, k)
    {
      var j :| j in added && j in deps && k in deps[j];
      assert j in tmp + added;
      StepReached(needs, roots, j, k);
    }
    FewerLeft(readable, tmp, added);
  }

  lemma FewerLeft(readable: set<string>, tmp: seq<string>, added: seq<string>)
    requires NoDuplicates(tmp + added)
    requires forall j :: j in tmp + added ==> j in readable
    ensures added != [] ==> readable - Elements(tmp + added) < readable - Elements(tmp)
  {
    if added != [] {
      assert added[0] == (tmp + added)[|tmp|];
      assert forall i :: 0 <= i < |tmp| ==> tmp[i] == (tmp + added)[i];
      assert added[0] !in tmp && added[0] in readable;
      assert forall j :: j in tmp ==> j in tmp + added;
      assert added[0] in readable - Elements(tmp) && added[0] in tmp + added;
    }
  }

  // When nothing is listed any more, the closure is complete.
  lemma NothingPending(required: seq<string>, readable: set<string>, deps: Dependencies, tmp: seq<string>)
    requires Pending(required, readable, deps, tmp, [])
    ensures NoDuplicates(tmp)
    ensures Elements(tmp) == Closure(required, readable, deps)
    ensures StrictlySorted(SortUniq(tmp)) && Elements(SortUniq(tmp)) == Elements(tmp)
  {
    SortUniqIsSet(tmp);
    var needs, roots := Needs(readable, deps), Roots(required, readable);
    forall j | j in readable && ReachedFrom(needs, roots, j)
      ensures j in tmp
    {
      ReachedIsLeast(needs, roots, Elements(tmp), j);
    }
  }

  ghost predicate SomeMissing(tmp: seq<string>, deps: Dependencies) {
    exists j :: j in tmp && j !in deps
  }

  lemma EmptyRound(tmp: seq<string>, readable: set<string>, deps: Dependencies)
    ensures Process(tmp, [], readable) == tmp + [] && Listed([], deps) == [] && Names([]) == []
    ensures !SomeMissing([], deps)
  {
  }

  lemma RoundStep(tmp0: seq<string>, list: seq<string>, readable: set<string>, deps: Dependencies,
                  added: seq<string>)
    requires list != []
    requires tmp0 + added == Process(tmp0, list[..|list| - 1], readable)
    ensures
      var j := list[|list| - 1];
      && (j in readable && j !in tmp0 + added ==>
            tmp0 + (added + [j]) == tmp0 + added + [j] == Process(tmp0, list, readable))
      && (j !in readable || j in tmp0 + added ==> tmp0 + added == Process(tmp0, list, readable))
      && Names(added + [j]) == Names(added) + [ModuleName(j)]
      && Listed(added + [j], deps) == Listed(added, deps) + (if j in deps then deps[j] else [])
      && (SomeMissing(tmp0 + added + [j], deps) <==> SomeMissing(tmp0 + added, deps) || j !in deps)
  {
    var j := list[|list| - 1];
    assert (added + [j])[..|added|] == added;
    assert forall x :: x in tmp0 + added + [j] <==> x in tmp0 + added || x == j;
  }

  // One pass over a list: appends to the processed modules, and to the
  // modprobe list in the first pass only; counts the dependencies it lists.
  method Round(tmp0: seq<string>, list: seq<string>, readable: set<string>, moddep: seq<string>,
               first: bool, modprobe0: seq<string>, error0: bool)
    returns (tmp: seq<string>, found: seq<string>, pcount: nat, modprobe: seq<string>, error: bool,
             ghost added: seq<string>)
    requires error0 <==> SomeMissing(tmp0, Written(moddep, readable))
    ensures tmp == tmp0 + added == Process(tmp0, list, readable)
    ensures found == Listed(added, Written(moddep, readable)) && pcount == |found|
    ensures modprobe == if first then modprobe0 + Names(added) else modprobe0
    ensures error <==> SomeMissing(tmp, Written(moddep, readable))
  {
    hide SomeMissing, Names, Listed, Process, DepsOf;
    ghost var deps := Written(moddep, readable);
    tmp, found, pcount, modprobe, error, added := tmp0, [], 0, modprobe0, error0, [];
    EmptyRound(tmp0, readable, deps);
    for i := 0 to |list|
      invariant tmp == tmp0 + added == Process(tmp0, list[..i], readable)
      invariant found == Listed(added, deps) && pcount == |found|
      invariant modprobe == if first then modprobe0 + Names(added) else modprobe0
      invariant error <==> SomeMissing(tmp, deps)
    {
      var j := list[i];
      assert list[..i + 1][..i] == list[..i];
      RoundStep(tmp0, list[..i + 1], readable, deps, added);
      if j !in readable {
        continue;
      }
      if j in tmp {
        continue;
      }
      if first {
        modprobe := modprobe + [ModuleName(j)];
      }
      tmp, added := tmp + [j], added + [j];
      var ks := DepsOf(moddep, j);
      if ks.None? {
        error := true;
      } else {
        found := found + ks.value;
        pcount := pcount + |ks.value|;
      }
    }
    assert list[..|list|] == list;
  }

  lemma NothingBefore(s: seq<string>)
    ensures [] + s == s
  {
  }

  // All modules to copy, sorted; the modprobe list; whether get_deps failed on
  // some processed module; and the modules as they were processed.
  method CopyKernelModules(required: seq<string>, readable: set<string>, moddep: seq<string>)
    returns (files: seq<string>, modprobe: seq<string>, error: bool, processed: seq<string>)
    ensures NoDuplicates(processed)
    ensures Elements(processed) == Closure(required, readable, Written(moddep, readable))
    ensures StrictlySorted(files) && Elements(files) == Elements(processed)
    ensures modprobe == Names(Process([], required, readable))
    ensures error <==> SomeMissing(processed, Written(moddep, readable))
  {
    ghost var deps := Written(moddep, readable);
    var list, tmp, pcount, first := required, [], 1, true;
    modprobe, error := [], false;
    hide Pending, Process, Names, Listed, Closure, NoDuplicates, SortUniq, StrictlySorted;
    hide Elements, SomeMissing, Written;
    EmptyRound([], readable, deps);
    PendingAtStart(required, readable, deps);
    while pcount > 0
      invariant Pending(required, readable, deps, tmp, list)
      invariant first ==> list == required && tmp == [] && modprobe == [] && pcount == 1
      invariant !first ==> pcount == |list| && modprobe == Names(Process([], required, readable))
      invariant error <==> SomeMissing(tmp, deps)
      decreases readable - Elements(tmp), pcount
    {
      ghost var added;
      ghost var before, listed := tmp, list;
      tmp, list, pcount, modprobe, error, added :=
        Round(tmp, list, readable, moddep, first, modprobe, error);
      RoundKeepsPending(required, readable, deps, before, listed, added);
      NothingBefore(Names(added));
      NothingBefore(added);
      first := false;
    }
    NothingPending(required, readable, deps, tmp);
    files := SortUniq(tmp);
    processed := tmp;
  }

  // The dependencies a file of the given modules stands for.
  ghost function Meant(prefix: string, mods: Modules, readable: set<string>): Dependencies {
    map j | j in readable && prefix <= j && j[|prefix|..] in mods :: Prefixed(prefix, mods[j[|prefix|..]])
  }

  function Prefixed(prefix: string, names: seq<string>): (paths: seq<string>)
    ensures |paths| == |names|
    ensures forall i :: 0 <= i < |names| ==> paths[i] == prefix + names[i]
  {
    if names == [] then [] else [prefix + names[0]] + Prefixed(prefix, names[1..])
  }

  // Required modules by their names below the module directory, and files read
  // by absolute names.
  ghost predicate Expanded(required: seq<string>, prefix: string, readable: set<string>) {
    && (forall j :: j in required ==> prefix <= j && Relative(j[|prefix|..]))
    && forall j :: j in readable ==> j != "" && j[0] == '/'
  }

  // Where no required module has a readable dependency, the closure is the
  // required modules.
  lemma ClosureIsRoots(required: seq<string>, readable: set<string>, deps: Dependencies)
    ensures Closure(required, readable, deps) == Roots(required, readable) <==>
      forall j :: j in Roots(required, readable) ==> Needs(readable, deps)(j) <= Roots(required, readable)
  {
    hide Needs, ReachedFrom;
    var needs, roots := Needs(readable, deps), Roots(required, readable);
    var closure := Closure(required, readable, deps);
    forall j | j in roots
      ensures j in closure
    {
      RootReached(needs, roots, j);
    }
    if closure == roots {
      forall j, k | j in roots && k in needs(j)
        ensures k in roots
      {
        RootReached(needs, roots, j);
        StepReached(needs, roots, j, k);
        NeedsReadable(readable, deps, j);
        assert k in closure;
      }
    }
    if forall j :: j in roots ==> needs(j) <= roots {
      forall j | j in closure
        ensures j in roots
      {
        ReachedIsLeast(needs, roots, roots, j);
      }
      assert closure == roots;
    }
  }

  lemma NeedsReadable(readable: set<string>, deps: Dependencies, j: string)
    ensures Needs(readable, deps)(j) <= readable
  {
  }

  // What get_deps answers is never readable, be the names of modules.dep
  // relative or absolute.
  lemma WrittenNeedsNothing(required: seq<string>, readable: set<string>, moddep: seq<string>, version: string,
                            mods: Modules, j: string)
    requires '/' !in version && ValidModules(mods)
    requires IsFile(moddep, "", mods) || IsFile(moddep, Directory(version), mods)
    requires Expanded(required, Directory(version), readable) && j in Roots(required, readable)
    ensures Needs(readable, Written(moddep, readable))(j) == {}
  {
    hide DepsOf, IsFile, Relative, ValidModules;
    var prefix := Directory(version);
    if IsFile(moddep, "", mods) {
      RelativeDeps(moddep, mods, j);
      if DepsOf(moddep, j).Some? {
        var m :| m in mods && DepsOf(moddep, j).value == [m + ":"] + mods[m];
        RelativeNotReadable(mods, m, readable);
      }
    } else {
      AbsoluteDeps(moddep, version, mods, j[|prefix|..]);
      assert j == prefix + j[|prefix|..];
    }
  }

  lemma RelativeNotReadable(mods: Modules, m: string, readable: set<string>)
    requires ValidModules(mods) && m in mods && forall j :: j in readable ==> j != "" && j[0] == '/'
    ensures forall k :: k in [m + ":"] + mods[m] ==> k !in readable
  {
    assert (m + ":")[0] == m[0];
  }

  // So the modules copied are the required ones alone, and these are what the
  // comments describe if and only if no readable required module needs a
  // readable one that is not required.
  lemma CopiedIsMeantIff(required: seq<string>, readable: set<string>, moddep: seq<string>, version: string,
                         mods: Modules)
    requires '/' !in version && ValidModules(mods)
    requires IsFile(moddep, "", mods) || IsFile(moddep, Directory(version), mods)
    requires Expanded(required, Directory(version), readable)
    ensures Closure(required, readable, Written(moddep, readable)) == Roots(required, readable)
    ensures
      var meant := Meant(Directory(version), mods, readable);
      Closure(required, readable, Written(moddep, readable)) == Closure(required, readable, meant)
      <==> forall j :: j in Roots(required, readable) ==> Needs(readable, meant)(j) <= Roots(required, readable)
  {
    hide Written, Meant, Needs, Closure, Roots, IsFile, Expanded, ValidModules;
    forall j | j in Roots(required, readable)
      ensures Needs(readable, Written(moddep, readable))(j) == {}
    {
      WrittenNeedsNothing(required, readable, moddep, version, mods, j);
    }
    ClosureIsRoots(required, readable, Written(moddep, readable));
    ClosureIsRoots(required, readable, Meant(Directory(version), mods, readable));
  }

  const A := Directory("5") + "kernel/a.ko"
  const B := Directory("5") + "kernel/b.ko"
  const TWO_MODULES: Modules := map["kernel/a.ko" := ["kernel/b.ko"], "kernel/b.ko" := []]

  // A required module whose dependency is not copied.
  lemma DependencyLost()
    ensures
      var moddep := ["kernel/a.ko: kernel/b.ko", "kernel/b.ko:"];
      && IsFile(moddep, "", TWO_MODULES)
      && Closure([A], {A, B}, Written(moddep, {A, B})) == {A}
      && B in Closure([A], {A, B}, Meant(Directory("5"), TWO_MODULES, {A, B}))
  {
    hide Written, Meant, Needs, Closure, IsFile, Relative, Directory;
    var moddep := ["kernel/a.ko: kernel/b.ko", "kernel/b.ko:"];
    FileOfTwo(moddep);
    ModulesExpanded();
    CopiedIsMeantIff([A], {A, B}, moddep, "5", TWO_MODULES);
    assert Roots([A], {A, B}) == {A};
    MeantNeedsB();
    var meant := Meant(Directory("5"), TWO_MODULES, {A, B});
    RootAndNeed([A], {A, B}, meant, A, B);
  }

  lemma FileOfTwo(moddep: seq<string>)
    requires moddep == ["kernel/a.ko: kernel/b.ko", "kernel/b.ko:"]
    ensures IsFile(moddep, "", TWO_MODULES)
  {
    var needs := ["kernel/b.ko"];
    assert needs[1..] == [] && Spaced("", needs) == " " + "" + "kernel/b.ko" + "";
    assert LineOf("", "kernel/a.ko", needs) == moddep[0];
    assert LineOf("", "kernel/b.ko", []) == moddep[1];
    assert TWO_MODULES["kernel/a.ko"] == needs && TWO_MODULES["kernel/b.ko"] == [];
  }

  lemma ModulesExpanded()
    ensures ValidModules(TWO_MODULES) && '/' !in "5" && Expanded([A], Directory("5"), {A, B})
    ensures A in Roots([A], {A, B})
  {
    assert A[|Directory("5")|..] == "kernel/a.ko";
    assert Directory("5")[0] == '/';
  }

  lemma MeantNeedsB()
    ensures B in Needs({A, B}, Meant(Directory("5"), TWO_MODULES, {A, B}))(A)
  {
    var prefix := Directory("5");
    assert A[|prefix|..] == "kernel/a.ko";
    assert Prefixed(prefix, ["kernel/b.ko"])[0] == B;
  }

  lemma RootAndNeed(required: seq<string>, readable: set<string>, deps: Dependencies, j: string, k: string)
    requires j in Roots(required, readable) && k in Needs(readable, deps)(j)
    ensures k in Closure(required, readable, deps)
  {
    hide Needs;
    var needs, roots := Needs(readable, deps), Roots(required, readable);
    RootReached(needs, roots, j);
    StepReached(needs, roots, j, k);
    NeedsReadable(readable, deps, j);
  }
}
