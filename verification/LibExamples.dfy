// A host on which the rounds end, and two on which they do not.
module LibExamples {
  import opened Common
  import opened Graph
  import opened Links
  import opened LibClosure
  import opened LibRules
  import DotDot

  lemma PathIsFile(host: Host, name: string)
    requires '%' !in name && name != "" && name[0] == '/'
    ensures Classify(host, Line(name, "")) == File(name, name)
  {
    NothingToSubstitute(name, host.libdir);
    assert BUSYBOX[0] == 'b';
  }

  // A required file is reached.
  lemma RequiredReached(host: Host, name: string)
    requires '%' !in name && name != "" && name[0] == '/'
    ensures name in Bins(host, [Line(name, "")]) && Reached(host, [Line(name, "")], name)
  {
    hide Classify;
    PathIsFile(host, name);
    InBins(host, [Line(name, "")], Line(name, ""));
    RootReached(Succ(host), Bins(host, [Line(name, "")]), name);
  }

  const PLAIN := Host({"/a"}, map[], map[], "lib")

  // A file that is no link and has no libraries.
  lemma PlainEnds()
    ensures RoundsEnd(PLAIN, [Line("/a", "")])
    ensures AllFollowable(PLAIN, [Line("/a", "")]) && !EntersCircle(PLAIN, [Line("/a", "")])
  {
    hide Classify, Followable, AllFollowable, EntersCircle, LineLibraries;
    var line := Line("/a", "");
    var lines := [line];
    PathIsFile(PLAIN, "/a");
    NoLink(PLAIN.links, "/a");
    assert !SomeHangs(PLAIN, lines);
    assert LineLibraries(PLAIN, line) == [] by { PlainLibraries(); }
    assert lines[..0] == [] && NextNames(PLAIN, lines) == NextNames(PLAIN, []) + [];
    assert FinishesIn(PLAIN, lines, 1);
    RoundsEndIff(PLAIN, lines);
  }

  lemma PlainLibraries()
    ensures LineLibraries(PLAIN, Line("/a", "")) == []
  {
    PathIsFile(PLAIN, "/a");
  }

  const LOOP := Host(
    {"/a", "/b"}, map[], map["/a" := [LddLine("libb", "/b")], "/b" := [LddLine("liba", "/a")]], "lib")

  // Two libraries that need each other.
  lemma LoopNeverEnds()
    ensures EntersCircle(LOOP, [Line("/a", "")]) && !RoundsEnd(LOOP, [Line("/a", "")])
  {
    hide Classify, Succ, RoundsEnd, Bins, Reached, GoesOn;
    RequiredReached(LOOP, "/a");
    LoopLibrary("/a", "libb", "/b");
    LoopLibrary("/b", "liba", "/a");
    MutualSuccessors(Succ(LOOP), "/a", "/b");
    RoundsEndIff(LOOP, [Line("/a", "")]);
  }

  lemma LoopLibrary(x: string, name: string, y: string)
    requires x in LOOP.readable && x in LOOP.ldd && LOOP.ldd[x] == [LddLine(name, y)]
    requires name in ["liba", "libb"] && y in ["/a", "/b"]
    ensures y in Succ(LOOP)(x)
  {
    hide Followable, Final, Classify, Succ;
    NoLink(LOOP.links, x);
    var lines := LOOP.ldd[x];
    assert lines[..0] == [];
    assert Libraries(lines) == Libraries([]) + [y];
    PathIsFile(LOOP, y);
    LibraryIsSucc(LOOP, x, y);
  }

  const CLIMB := Host({"/bin/x"}, map["/bin/x" := "../../lib/y"], map[], "lib")

  // A link that climbs once above the root, on a host without libraries.
  lemma ClimbNeverEnds()
    ensures !RoundsEnd(CLIMB, [Line("/bin/x", "")])
  {
    hide Classify, Followable, RoundsEnd, Bins, Reached, HopEnds, Hop;
    RequiredReached(CLIMB, "/bin/x");
    ClimbIsHop();
    FollowStep(CLIMB.links, "/bin/x");
    RoundsEndIff(CLIMB, [Line("/bin/x", "")]);
  }

  lemma ClimbIsHop()
    ensures !HopEnds(CLIMB.links, "/bin/x")
  {
    hide HopEnds, DotDot.Render, DotDot.Resolve;
    var up := DotDot.UP;
    ClimbRendered("bin", "x", "lib", "y");
    assert "/" + "bin" + ("/" + "x") == "/bin/x";
    assert "/" + CLIMB.links["/bin/x"] == "/.." + ("/.." + ("/" + "lib" + ("/" + "y")));
    assert ["bin"] + ["x"] == ["bin", "x"];
    assert ["bin"] + [up, up, "lib", "y"] == ["bin", up, up, "lib", "y"];
    assert ["bin"] + ["x"] + [up, up, "lib", "y"] == ["bin", "x", up, up, "lib", "y"];
    RelativeHop(CLIMB.links, ["bin"], "x", [up, up, "lib", "y"]);
  }

  lemma ClimbRendered(a: string, b: string, c: string, d: string)
    requires forall s :: s in [a, b, c, d] ==> DotDot.Component(s) && s != DotDot.UP
    ensures
      var up := DotDot.UP;
      && DotDot.Components([a, b, up, up, c, d])
      && DotDot.Render([a, b]) == "/" + a + ("/" + b)
      && DotDot.Render([up, up, c, d]) == "/.." + ("/.." + ("/" + c + ("/" + d)))
      && DotDot.Resolve([a, up, up, c, d], DotDot.ROOT).climbs == 1
  {
    hide DotDot.Component, DotDot.Render, DotDot.Resolve;
    var up, names := DotDot.UP, [a, b, c, d];
    assert a in names && b in names && c in names && d in names;
    assert DotDot.Component(up) by { UpIsComponent(); }
    TwoNames(a, b);
    TwoNames(c, d);
    var once := [up] + [c, d];
    assert [a, up, up, c, d] == [a] + ([up] + once) && [up, up, c, d] == [up] + once;
    DotDot.NameAndUp(a, once);
    DotDot.UpAgain(once, 0);
    DotDot.UpAgain([c, d], 0);
    assert DotDot.UP !in [c, d];
    DotDot.NoUpNoClimb([c, d], DotDot.Resolution([], 1));
  }

  lemma UpIsComponent()
    ensures DotDot.Component(DotDot.UP)
  {
  }

  lemma TwoNames(a: string, b: string)
    ensures DotDot.Render([a, b]) == "/" + a + ("/" + b)
  {
    hide DotDot.Render;
    DotDot.RenderCons(a, [b]);
    DotDot.RenderOne([b]);
    assert [a] + [b] == [a, b];
  }
}
