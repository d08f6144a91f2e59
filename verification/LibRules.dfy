// The list of make_base by rules over what the files and ldd say.
module LibRules {
  import opened Common
  import opened Graph
  import opened Links
  import opened LibClosure

  // A line of ldd that names a library.
  ghost predicate NamesLibrary(line: LddLine) {
    line.name != "" && line.name != "linux-gate.so.1" && line.name != "static" && line.name != "not"
  }

  lemma {:induction false} LibrariesAre(lines: seq<LddLine>, l: string)
    ensures l in Libraries(lines) <==> exists i :: 0 <= i < |lines| && lines[i].shlib == l && NamesLibrary(lines[i])
  {
    if lines != [] {
      var init, last := lines[..|lines| - 1], lines[|lines| - 1];
      LibrariesAre(init, l);
      NameTest(last);
      if l in Libraries(init) {
        var i :| 0 <= i < |init| && init[i].shlib == l && NamesLibrary(init[i]);
        assert lines[i] == init[i];
      }
      if i :| 0 <= i < |lines| && lines[i].shlib == l && NamesLibrary(lines[i]) {
        assert i < |init| ==> init[i] == lines[i];
      }
    }
  }

  lemma NameTest(line: LddLine)
    ensures NamesLibrary(line) <==> line.name !in ["", "linux-gate.so.1", "static", "not"]
  {
    var names := ["", "linux-gate.so.1", "static", "not"];
    assert names[0] == "" && names[1] == "linux-gate.so.1" && names[2] == "static" && names[3] == "not";
  }

  // A name stands for itself, or has the library directory for its %LIB%.
  ghost predicate StandsFor(name: string, libdir: string, path: string) {
    || ('%' !in name && path == name)
    || exists a, b :: '%' !in a && name == a + "%LIB%" + b && path == a + libdir + b
  }

  lemma SubstituteStands(name: string, libdir: string, path: string)
    requires StandsFor(name, libdir, path)
    ensures Substitute(name, libdir) == path
  {
    if '%' !in name && path == name {
      NothingToSubstitute(name, libdir);
    } else {
      var a, b :| '%' !in a && name == a + "%LIB%" + b && path == a + libdir + b;
      SubstituteOnce(a, b, libdir);
    }
  }

  lemma {:induction false} NothingToSubstitute(name: string, libdir: string)
    requires '%' !in name
    ensures Substitute(name, libdir) == name
  {
    if name != "" {
      assert LIB[0] == '%';
      NothingToSubstitute(name[1..], libdir);
      assert name == [name[0]] + name[1..];
    }
  }

  lemma {:induction false} SubstituteOnce(a: string, b: string, libdir: string)
    requires '%' !in a
    ensures Substitute(a + "%LIB%" + b, libdir) == a + libdir + b
  {
    var name := a + "%LIB%" + b;
    if a == "" {
      assert name[..|LIB|] == "%LIB%" && name[|LIB|..] == b;
    } else {
      assert name[0] == a[0] && name[1..] == a[1..] + "%LIB%" + b;
      assert LIB[0] == '%';
      SubstituteOnce(a[1..], b, libdir);
      assert a + libdir + b == [a[0]] + (a[1..] + libdir + b);
    }
  }

  // What a line of a work file is.
  lemma LineKinds(host: Host, line: Line)
    ensures line.bin == "" || line.bin[0] == '#' || line.bin[0] == '(' ==> Classify(host, line) == Ignored
    ensures line.bin == "busybox" ==>
      Classify(host, line) == if line.target == "" then BusyboxWithoutTarget else BusyboxLink(line.target)
    ensures IsPath(line.bin) ==> forall path :: StandsFor(line.bin, host.libdir, path) ==>
      Classify(host, line) == File(path, if line.target == "" then path else line.target)
  {
    hide StandsFor, Substitute;
    assert BUSYBOX == "busybox" && "busybox"[0] == 'b';
    forall path | StandsFor(line.bin, host.libdir, path)
      ensures Substitute(line.bin, host.libdir) == path
    {
      SubstituteStands(line.bin, host.libdir, path);
    }
  }

  ghost predicate IsPath(name: string) {
    name != "" && name[0] != '#' && name[0] != '(' && name != "busybox"
  }

  // Every required file is on a list without errors, with its target, or with
  // itself for one.
  lemma RequiredListed(host: Host, required: seq<Line>, line: Line, path: string)
    requires AllFollowable(host, required) && !SomethingWrong(host, required)
    requires line in required && IsPath(line.bin) && StandsFor(line.bin, host.libdir, path)
    ensures path in host.readable
    ensures Wanted(host, required, Entry(path, if line.target == "" then path else line.target))
  {
    hide StandsFor, Reached, Classify;
    LineKinds(host, line);
    assert Presented(host, required, line) && !Wrong(host, line);
    PresentedReached(host, required, line);
  }

  lemma BusyboxListed(host: Host, required: seq<Line>, target: string)
    requires Line("busybox", target) in required && target != ""
    ensures Wanted(host, required, Entry("busybox", target))
  {
    hide Classify, Reached;
    LineKinds(host, Line("busybox", target));
    assert Presented(host, required, Line("busybox", target));
  }

  // A line is an error exactly for busybox without a target and for a file that
  // is not readable.
  lemma WrongIff(host: Host, line: Line, path: string)
    requires StandsFor(line.bin, host.libdir, path)
    ensures Wrong(host, line) <==>
      (line.bin == "busybox" && line.target == "") || (IsPath(line.bin) && path !in host.readable)
  {
    hide StandsFor, Classify;
    LineKinds(host, line);
  }

  // The script gives up on a busybox line without a target and on a required
  // file that is not readable.
  lemma RequiredWrong(host: Host, required: seq<Line>, line: Line)
    requires line in required
    requires line == Line("busybox", "")
             || (IsPath(line.bin) && exists path :: StandsFor(line.bin, host.libdir, path) && path !in host.readable)
    ensures SomethingWrong(host, required)
  {
    hide StandsFor, Reached, Classify;
    LineKinds(host, line);
    assert Presented(host, required, line) && Wrong(host, line);
  }

  // What a listed link says is on the list: an absolute text as it is.
  lemma AbsoluteListed(host: Host, required: seq<Line>, e: Entry)
    requires AllFollowable(host, required) && !SomethingWrong(host, required)
    requires Wanted(host, required, e) && e.source != "busybox"
    requires e.source in host.links && "/" <= host.links[e.source]
    ensures Wanted(host, required, Entry(host.links[e.source], host.links[e.source]))
  {
    hide Wanted, AllFollowable, SomethingWrong;
    ListIsClosed(host, required, e, host.links[e.source]);
  }

  // Every library that ldd names for a listed file that is no link is on the
  // list.
  lemma LibraryListed(host: Host, required: seq<Line>, e: Entry, i: nat, path: string)
    requires AllFollowable(host, required) && !SomethingWrong(host, required)
    requires Wanted(host, required, e) && e.source != "busybox" && e.source !in host.links
    requires e.source in host.ldd && i < |host.ldd[e.source]| && NamesLibrary(host.ldd[e.source][i])
    requires
      var shlib := host.ldd[e.source][i].shlib;
      IsPath(shlib) && StandsFor(shlib, host.libdir, path)
    ensures path in host.readable && Wanted(host, required, Entry(path, path))
  {
    hide Wanted, AllFollowable, StandsFor, Classify, SomethingWrong, IsPath, NamesLibrary, Libraries, Bins;
    var shlib := host.ldd[e.source][i].shlib;
    LibrariesAre(host.ldd[e.source], shlib);
    var libraries := LibrariesOf(host, e.source);
    var k :| 0 <= k < |libraries| && libraries[k] == shlib;
    assert AsLines(libraries)[k] == Line(shlib, "");
    LineKinds(host, Line(shlib, ""));
    InBins(host, AsLines(libraries), Line(shlib, ""));
    ListIsClosed(host, required, e, path);
    ListedReadable(host, required, e, shlib, path);
  }

  lemma ListedReadable(host: Host, required: seq<Line>, e: Entry, shlib: string, path: string)
    requires !SomethingWrong(host, required) && Wanted(host, required, e) && e.source != "busybox"
    requires e.source !in host.links && shlib in LibrariesOf(host, e.source)
    requires Classify(host, Line(shlib, "")) == File(path, path)
    ensures path in host.readable
  {
    hide Classify, Reached, Hops, Final, Wanted;
    var b := Origin(host, required, e);
    HopsContinue(host.links, b, e.source);
    LibraryPresented(host, required, b, shlib);
    assert !Wrong(host, Line(shlib, ""));
  }
}
