// process_tmp_file and the loop of make_base: the binaries of a ramdisk with
// the symbolic links on the way and the shared libraries, found in rounds
// without a record of what has been visited.
module LibClosure {
  import opened Graph
  import opened Order
  import opened Common
  import opened Links

  // A line of a work file, and a line of ldd's output.
  datatype Line = Line(bin: string, target: string)

  datatype LddLine = LddLine(name: string, shlib: string)

  datatype Entry = Entry(source: string, target: string)

  // What the script can see: which files it can read, what the symbolic links
  // say, what ldd prints, and the library directory.
  datatype Host = Host(
    readable: set<string>, links: Texts, ldd: map<string, seq<LddLine>>, libdir: string)

  const LIB := "%LIB%"
  const BUSYBOX := "busybox"

  // sed "s/%LIB%/libdir/"
  function Substitute(bin: string, libdir: string): string {
    if bin == "" then ""
    else if LIB <= bin then libdir + bin[|LIB|..]
    else [bin[0]] + Substitute(bin[1..], libdir)
  }

  datatype Item = Ignored | BusyboxWithoutTarget | BusyboxLink(target: string) | File(bin: string, target: string)

  function Classify(host: Host, line: Line): Item {
    if line.bin == "" then Ignored
    else if line.bin[0] == '#' || line.bin[0] == '(' then Ignored
    else if line.bin == BUSYBOX then
      if line.target == "" then BusyboxWithoutTarget else BusyboxLink(line.target)
    else
      var bin := Substitute(line.bin, host.libdir);
      File(bin, if line.target == "" then bin else line.target)
  }

  // The lines that make the script give up.
  predicate Wrong(host: Host, line: Line) {
    var item := Classify(host, line);
    item.BusyboxWithoutTarget? || (item.File? && item.bin !in host.readable)
  }

  // The lines on which it hangs: a readable file whose links it cannot follow.
  ghost predicate Hangs(host: Host, line: Line) {
    var item := Classify(host, line);
    item.File? && item.bin in host.readable && !Followable(host.links, item.bin)
  }

  // The library names ldd reports, with those that name no library left out.
  function Libraries(lines: seq<LddLine>): seq<string> {
    if lines == [] then []
    else
      var line := lines[|lines| - 1];
      Libraries(lines[..|lines| - 1])
      + (if line.name in ["", "linux-gate.so.1", "static", "not"] then [] else [line.shlib])
  }

  function LibrariesOf(host: Host, x: string): seq<string> {
    if x in host.ldd then Libraries(host.ldd[x]) else []
  }

  // Files that are opened: followed to the end of their links and given to ldd.
  ghost predicate Opened(host: Host, bin: string) {
    bin in host.readable && Followable(host.links, bin)
  }

  ghost function LibrariesBehind(host: Host, bin: string): seq<string> {
    if Opened(host, bin) then LibrariesOf(host, Final(host.links, bin)) else []
  }

  ghost function Doubled(xs: seq<string>): (entries: seq<Entry>)
    ensures |entries| == |xs|
    ensures forall i :: 0 <= i < |xs| ==> entries[i] == Entry(xs[i], xs[i])
  {
    seq(|xs|, i requires 0 <= i < |xs| => Entry(xs[i], xs[i]))
  }

  // What one line adds to the list of files and to the next work file.
  ghost function LineEntries(host: Host, line: Line): seq<Entry> {
    match Classify(host, line)
    case BusyboxLink(target) => [Entry(BUSYBOX, target)]
    case File(bin, target) =>
      if Opened(host, bin) then [Entry(bin, target)] + Doubled(Hops(host.links, bin)) else []
    case _ => []
  }

  ghost function LineLibraries(host: Host, line: Line): seq<string> {
    match Classify(host, line)
    case File(bin, _) => LibrariesBehind(host, bin)
    case _ => []
  }

  ghost function Entries(host: Host, lines: seq<Line>): seq<Entry> {
    if lines == [] then []
    else Entries(host, lines[..|lines| - 1]) + LineEntries(host, lines[|lines| - 1])
  }

  ghost function NextNames(host: Host, lines: seq<Line>): seq<string> {
    if lines == [] then []
    else NextNames(host, lines[..|lines| - 1]) + LineLibraries(host, lines[|lines| - 1])
  }

  ghost predicate SomeWrong(host: Host, lines: seq<Line>) {
    exists line :: line in lines && Wrong(host, line)
  }

  ghost predicate SomeHangs(host: Host, lines: seq<Line>) {
    exists line :: line in lines && Hangs(host, line)
  }

  function AsLines(names: seq<string>): (lines: seq<Line>)
    ensures |lines| == |names|
    ensures forall i :: 0 <= i < |names| ==> lines[i] == Line(names[i], "")
  {
    seq(|names|, i requires 0 <= i < |names| => Line(names[i], ""))
  }

  // The next work file, if there is one.
  function NextFile(names: seq<string>): Option<seq<Line>> {
    if names == [] then None else Some(AsLines(SortUniq(names)))
  }

  ghost function Next(host: Host, lines: seq<Line>): Option<seq<Line>> {
    NextFile(NextNames(host, lines))
  }

  function Left(file: Option<seq<Line>>): seq<Line> {
    if file.Some? then file.value else []
  }

  // Where the rounds stand after n of them, from a work file on.
  datatype State = Hanging | Finished | Working(lines: seq<Line>)

  ghost function After(host: Host, lines: seq<Line>, n: nat): State
    decreases n
  {
    if n == 0 then Working(lines)
    else if SomeHangs(host, lines) then Hanging
    else
      match Next(host, lines)
      case None => Finished
      case Some(next) => After(host, next, n - 1)
  }

  ghost predicate FinishesIn(host: Host, lines: seq<Line>, n: nat) {
    After(host, lines, n).Finished?
  }

  ghost predicate RoundsEnd(host: Host, required: seq<Line>) {
    exists n: nat :: FinishesIn(host, required, n)
  }

  // The files reached from the required ones: those of libraries behind them.
  ghost function Bins(host: Host, lines: seq<Line>): set<string> {
    set line | line in lines && Classify(host, line).File? :: Classify(host, line).bin
  }

  ghost function Succ(host: Host): string -> set<string> {
    x => Bins(host, AsLines(LibrariesBehind(host, x)))
  }

  ghost predicate Reached(host: Host, required: seq<Line>, x: string) {
    ReachedFrom(Succ(host), Bins(host, required), x)
  }

  // A line the script has to look at: a required one, or one for a library of
  // a reached file.
  ghost predicate Presented(host: Host, required: seq<Line>, line: Line) {
    || line in required
    || (line.target == "" && exists x :: Reached(host, required, x) && line.bin in LibrariesBehind(host, x))
  }

  ghost predicate Passed(host: Host, required: seq<Line>, y: string) {
    exists x :: Reached(host, required, x) && Opened(host, x) && y in Hops(host.links, x)
  }

  // What belongs on the list: presented files and busybox links with their
  // targets, and what the links of reached files pass.
  ghost predicate Wanted(host: Host, required: seq<Line>, e: Entry) {
    || (exists line :: Presented(host, required, line) && Classify(host, line) == File(e.source, e.target)
                       && Opened(host, e.source))
    || (exists line :: Presented(host, required, line) && Classify(host, line) == BusyboxLink(e.target)
                       && e.source == BUSYBOX)
    || (e.source == e.target && Passed(host, required, e.source))
  }

  ghost predicate SomethingWrong(host: Host, required: seq<Line>) {
    exists line :: Presented(host, required, line) && Wrong(host, line)
  }

  ghost predicate AllFollowable(host: Host, required: seq<Line>) {
    forall x :: Reached(host, required, x) && x in host.readable ==> Followable(host.links, x)
  }

  // From some required file a circle of libraries can be reached.
  ghost predicate EntersCircle(host: Host, required: seq<Line>) {
    exists x :: x in Bins(host, required) && GoesOn(Succ(host), x)
  }

  class Ramdisk {
    const host: Host
    var tmpfile: Option<seq<Line>>
    var newtmpfile: seq<string>
    var procfile: seq<Entry>
    var error: bool

    constructor (host: Host)
      ensures this.host == host && newtmpfile == [] && procfile == [] && !error && tmpfile.None?
    {
      this.host := host;
      tmpfile, newtmpfile, procfile, error := None, [], [], false;
    }

    // One line of the work file.
    method ProcessLine(line: Line)
      requires !Hangs(host, line)
      modifies this
      ensures tmpfile == old(tmpfile)
      ensures procfile == old(procfile) + LineEntries(host, line)
      ensures newtmpfile == old(newtmpfile) + LineLibraries(host, line)
      ensures error == (old(error) || Wrong(host, line))
    {
      hide Followable, Hops, Final, Doubled;
      var item := Classify(host, line);
      if item.Ignored? {
        return;
      }
      if item.BusyboxWithoutTarget? {
        error := true;
        return;
      }
      if item.BusyboxLink? {
        procfile := procfile + [Entry(BUSYBOX, item.target)];
        return;
      }
      var bin := item.bin;
      if bin !in host.readable {
        error := true;
        return;
      }
      procfile := procfile + [Entry(bin, item.target)];
      bin := FollowLinks(bin);
      newtmpfile := newtmpfile + LibrariesOf(host, bin);
    }

    // Lists every link target on the way from bin0 to a file that is no link.
    method FollowLinks(bin0: string) returns (bin: string)
      requires Followable(host.links, bin0)
      modifies this
      ensures tmpfile == old(tmpfile) && newtmpfile == old(newtmpfile) && error == old(error)
      ensures procfile == old(procfile) + Doubled(Hops(host.links, bin0))
      ensures bin == Final(host.links, bin0)
    {
      hide Followable, Hops, Final, Doubled, Length, HopEnds, Hop;
      bin := bin0;
      ghost var all := procfile + Doubled(Hops(host.links, bin0));
      while bin in host.links
        invariant Followable(host.links, bin)
        invariant procfile + Doubled(Hops(host.links, bin)) == all
        invariant Final(host.links, bin) == Final(host.links, bin0)
        invariant newtmpfile == old(newtmpfile) && error == old(error) && tmpfile == old(tmpfile)
        decreases Length(host.links, bin)
      {
        FollowStep(host.links, bin);
        bin := NextHop(host.links, bin);
        ListAssociates(procfile, bin, Hops(host.links, bin));
        procfile := procfile + [Entry(bin, bin)];
      }
      NoLink(host.links, bin);
      assert Doubled([]) == [];
    }

    // One round.
    method ProcessTmpFile()
      requires tmpfile.Some? && newtmpfile == [] && !SomeHangs(host, tmpfile.value)
      modifies this
      ensures procfile == old(procfile) + Entries(host, old(tmpfile.value))
      ensures error == (old(error) || SomeWrong(host, old(tmpfile.value)))
      ensures tmpfile == Next(host, old(tmpfile.value)) && newtmpfile == []
    {
      hide LineEntries, LineLibraries, Wrong, Hangs, Entries, NextNames, SomeWrong, SortUniq;
      var lines := tmpfile.value;
      NothingYet(host);
      assert lines[..0] == [];
      for i := 0 to |lines|
        invariant procfile == old(procfile) + Entries(host, lines[..i])
        invariant newtmpfile == NextNames(host, lines[..i])
        invariant error == (old(error) || SomeWrong(host, lines[..i]))
      {
        OneMoreLine(host, lines, i);
        ProcessLine(lines[i]);
      }
      assert lines[..|lines|] == lines;
      if newtmpfile != [] {
        tmpfile := Some(AsLines(SortUniq(newtmpfile)));
        newtmpfile := [];
      } else {
        tmpfile := None;
      }
    }

    // The rounds of make_base: the list of files, or None on an error.
    method MakeBase(required: seq<Line>) returns (files: Option<set<Entry>>)
      requires AllFollowable(host, required) && !EntersCircle(host, required)
      requires newtmpfile == [] && procfile == [] && !error
      modifies this
      ensures files.None? <==> SomethingWrong(host, required)
      ensures files.Some? ==> forall e :: e in files.value <==> Wanted(host, required, e)
    {
      hide Wanted, SomethingWrong, Progress, NextNames, Entries, SomeWrong, SomeHangs, AllFollowable, EntersCircle;
      tmpfile := Some(required);
      ghost var done: seq<Line> := [];
      RoundsEndIff(host, required);
      ghost var n: nat :| FinishesIn(host, required, n);
      ProgressAtStart(host, required);
      while tmpfile.Some?
        invariant Progress(host, required, done, Left(tmpfile))
        invariant tmpfile.Some? ==> FinishesIn(host, tmpfile.value, n)
        invariant procfile == Entries(host, done) && newtmpfile == []
        invariant error == SomeWrong(host, done)
        decreases if tmpfile.Some? then n + 1 else 0
      {
        ghost var left := tmpfile.value;
        RoundAdvances(host, required, done, left, n);
        ProcessTmpFile();
        done := done + left;
        n := n - 1;
      }
      DoneIsWanted(host, required, done);
      if error {
        return None;
      }
      files := Some(set e | e in procfile);
    }
  }

  lemma NothingYet(host: Host)
    ensures Entries(host, []) == [] && NextNames(host, []) == [] && !SomeWrong(host, [])
  {
  }

  lemma OneMoreLine(host: Host, lines: seq<Line>, i: nat)
    requires i < |lines|
    ensures Entries(host, lines[..i + 1]) == Entries(host, lines[..i]) + LineEntries(host, lines[i])
    ensures NextNames(host, lines[..i + 1]) == NextNames(host, lines[..i]) + LineLibraries(host, lines[i])
    ensures SomeWrong(host, lines[..i + 1]) <==> SomeWrong(host, lines[..i]) || Wrong(host, lines[i])
    ensures lines[i] in lines
  {
    hide LineEntries, LineLibraries, Wrong;
    assert lines[..i + 1] == lines[..i] + [lines[i]];
    assert lines[..i + 1][..i] == lines[..i];
  }

  lemma ListAssociates(before: seq<Entry>, y: string, rest: seq<string>)
    ensures before + Doubled([y] + rest) == before + [Entry(y, y)] + Doubled(rest)
  {
  }

  lemma {:induction false} EntriesOfLines(host: Host, lines: seq<Line>, e: Entry)
    ensures e in Entries(host, lines) <==> exists line :: line in lines && e in LineEntries(host, line)
  {
    hide LineEntries;
    if lines != [] {
      EntriesOfLines(host, lines[..|lines| - 1], e);
      assert forall line :: line in lines <==> line in lines[..|lines| - 1] || line == lines[|lines| - 1];
    }
  }

  lemma {:induction false} NamesOfLines(host: Host, lines: seq<Line>, name: string)
    ensures name in NextNames(host, lines) <==> exists line :: line in lines && name in LineLibraries(host, line)
  {
    hide LineLibraries;
    if lines != [] {
      NamesOfLines(host, lines[..|lines| - 1], name);
      assert forall line :: line in lines <==> line in lines[..|lines| - 1] || line == lines[|lines| - 1];
    }
  }

  lemma NextLines(host: Host, lines: seq<Line>)
    ensures
      var names, next := NextNames(host, lines), Left(Next(host, lines));
      && (forall l :: l in names <==> Line(l, "") in next)
      && (forall line :: line in next ==> line.target == "")
      && (Next(host, lines).Some? <==> next != [])
  {
    hide SortUniq, NextNames;
    var names := NextNames(host, lines);
    SortUniqIsSet(names);
    if names != [] {
      assert names[0] in SortUniq(names);
      var sorted := SortUniq(names);
      forall l
        ensures l in sorted <==> Line(l, "") in AsLines(sorted)
      {
        if l in sorted {
          var i :| 0 <= i < |sorted| && sorted[i] == l;
          assert AsLines(sorted)[i] == Line(l, "");
        }
      }
    }
  }

  // The lines of the next work file are those of libraries behind a line.
  lemma NextLineFrom(host: Host, lines: seq<Line>, line: Line)
    ensures line in Left(Next(host, lines)) <==>
      line.target == "" && exists from :: from in lines && line.bin in LineLibraries(host, from)
  {
    hide LineLibraries, NextNames, Next;
    NextLines(host, lines);
    NamesOfLines(host, lines, line.bin);
    assert line.target == "" ==> line == Line(line.bin, "");
  }

  lemma InBins(host: Host, lines: seq<Line>, line: Line)
    requires line in lines && Classify(host, line).File?
    ensures Classify(host, line).bin in Bins(host, lines)
  {
    hide Classify;
  }

  // A library line behind a file is a successor of the file.
  lemma LibraryIsSucc(host: Host, x: string, l: string)
    requires l in LibrariesBehind(host, x) && Classify(host, Line(l, "")).File?
    ensures Classify(host, Line(l, "")).bin in Succ(host)(x)
  {
    hide Classify, LibrariesBehind;
    var ls := LibrariesBehind(host, x);
    var i :| 0 <= i < |ls| && ls[i] == l;
    assert AsLines(ls)[i] == Line(l, "");
    InBins(host, AsLines(ls), Line(l, ""));
  }

  lemma SuccIsLibrary(host: Host, x: string, y: string) returns (l: string)
    requires y in Succ(host)(x)
    ensures l in LibrariesBehind(host, x) && Classify(host, Line(l, "")).File? && Classify(host, Line(l, "")).bin == y
  {
    hide Classify, LibrariesBehind;
    var lines := AsLines(LibrariesBehind(host, x));
    var line :| line in lines && Classify(host, line).File? && Classify(host, line).bin == y;
    l := line.bin;
  }

  // A presented file is reached.
  lemma PresentedReached(host: Host, required: seq<Line>, line: Line)
    requires Presented(host, required, line) && Classify(host, line).File?
    ensures Reached(host, required, Classify(host, line).bin)
  {
    hide Classify, LibrariesBehind, Succ;
    var bin := Classify(host, line).bin;
    if line in required {
      InBins(host, required, line);
      RootReached(Succ(host), Bins(host, required), bin);
    } else {
      var x :| Reached(host, required, x) && line.bin in LibrariesBehind(host, x);
      assert line == Line(line.bin, "");
      LibraryIsSucc(host, x, line.bin);
      StepReached(Succ(host), Bins(host, required), x, bin);
    }
  }

  lemma LineSound(host: Host, required: seq<Line>, line: Line)
    requires Presented(host, required, line)
    ensures forall e :: e in LineEntries(host, line) ==> Wanted(host, required, e)
    ensures forall l :: l in LineLibraries(host, line) ==> Presented(host, required, Line(l, ""))
  {
    hide Reached, Hops, LibrariesBehind, Opened;
    match Classify(host, line)
    case File(bin, target) =>
      PresentedReached(host, required, line);
      forall e | e in Doubled(Hops(host.links, bin)) && Opened(host, bin)
        ensures Wanted(host, required, e)
      {
        var i :| 0 <= i < |Hops(host.links, bin)| && Doubled(Hops(host.links, bin))[i] == e;
        assert Passed(host, required, e.source);
      }
    case _ =>
  }

  // Everything done so far is wanted, and all required lines and all libraries
  // found are done or still to be done.
  ghost predicate Progress(host: Host, required: seq<Line>, done: seq<Line>, left: seq<Line>) {
    && (forall line :: line in done || line in left ==> Presented(host, required, line))
    && (forall line :: line in required ==> line in done || line in left)
    && (forall line, l :: line in done && l in LineLibraries(host, line) ==>
          Line(l, "") in done || Line(l, "") in left)
    && !SomeHangs(host, done)
  }

  lemma ProgressAtStart(host: Host, required: seq<Line>)
    ensures Progress(host, required, [], required)
    ensures Entries(host, []) == [] && !SomeWrong(host, [])
  {
  }

  lemma RoundKeepsProgress(host: Host, required: seq<Line>, done: seq<Line>, left: seq<Line>)
    requires Progress(host, required, done, left) && !SomeHangs(host, left)
    ensures Progress(host, required, done + left, Left(Next(host, left)))
  {
    hide Presented, LineLibraries, Next, Hangs;
    var next := Left(Next(host, left));
    forall line | line in next
      ensures Presented(host, required, line)
    {
      NextLineFrom(host, left, line);
      var from :| from in left && line.bin in LineLibraries(host, from);
      LineSound(host, required, from);
      assert line == Line(line.bin, "");
    }
    forall line, l | line in done + left && l in LineLibraries(host, line)
      ensures Line(l, "") in done + left || Line(l, "") in next
    {
      NextLineFrom(host, left, Line(l, ""));
    }
  }

  // Progress makes the files of done lines closed under successors.
  lemma ReachedIsDone(host: Host, required: seq<Line>, done: seq<Line>, x: string)
    requires Progress(host, required, done, []) && Reached(host, required, x)
    ensures x in Bins(host, done)
  {
    hide Presented, Classify, LibrariesBehind, Succ, Hangs, Reached;
    var s := Bins(host, done);
    forall a | a in s
      ensures Succ(host)(a) <= s
    {
      forall b | b in Succ(host)(a)
        ensures b in s
      {
        SuccIsDone(host, required, done, a, b);
      }
    }
    assert Bins(host, required) <= s;
    ReachedStays(host, required, s, x);
  }

  lemma ReachedStays(host: Host, required: seq<Line>, s: set<string>, x: string)
    requires Bins(host, required) <= s && forall a :: a in s ==> Succ(host)(a) <= s
    requires Reached(host, required, x)
    ensures x in s
  {
    hide Succ, Bins;
    ReachedIsLeast(Succ(host), Bins(host, required), s, x);
  }

  lemma SuccIsDone(host: Host, required: seq<Line>, done: seq<Line>, a: string, b: string)
    requires Progress(host, required, done, []) && a in Bins(host, done) && b in Succ(host)(a)
    ensures b in Bins(host, done)
  {
    hide Presented, Classify, LibrariesBehind, Succ, SomeHangs;
    var l := SuccIsLibrary(host, a, b);
    var line :| line in done && Classify(host, line).File? && Classify(host, line).bin == a;
    assert l in LineLibraries(host, line);
    InBins(host, done, Line(l, ""));
  }

  lemma PresentedIsDone(host: Host, required: seq<Line>, done: seq<Line>, line: Line)
    requires Progress(host, required, done, []) && Presented(host, required, line)
    ensures line in done
  {
    hide Classify, LibrariesBehind, Reached, SomeHangs;
    if line !in required {
      var x :| Reached(host, required, x) && line.bin in LibrariesBehind(host, x);
      ReachedIsDone(host, required, done, x);
      var from :| from in done && Classify(host, from).File? && Classify(host, from).bin == x;
      assert line.bin in LineLibraries(host, from);
      assert line == Line(line.bin, "");
    }
  }

  // So at the end the list is exactly what is wanted.
  lemma DoneIsWanted(host: Host, required: seq<Line>, done: seq<Line>)
    requires Progress(host, required, done, [])
    ensures SomeWrong(host, done) <==> SomethingWrong(host, required)
    ensures forall e :: e in Entries(host, done) <==> Wanted(host, required, e)
  {
    hide Presented, Wrong, Wanted, LineEntries, SomeHangs, LineLibraries;
    forall line
      ensures Presented(host, required, line) <==> line in done
    {
      if Presented(host, required, line) {
        PresentedIsDone(host, required, done, line);
      }
    }
    forall e
      ensures e in Entries(host, done) <==> Wanted(host, required, e)
    {
      EntriesOfLines(host, done, e);
      if line :| line in done && e in LineEntries(host, line) {
        LineSound(host, required, line);
      }
      if Wanted(host, required, e) {
        WantedIsListed(host, required, done, e);
      }
    }
  }

  lemma WantedIsListed(host: Host, required: seq<Line>, done: seq<Line>, e: Entry)
    requires Progress(host, required, done, []) && Wanted(host, required, e)
    requires forall line :: Presented(host, required, line) ==> line in done
    ensures exists line :: line in done && e in LineEntries(host, line)
  {
    hide Presented, Reached, Hops, Opened, Progress;
    if line :| Presented(host, required, line) && Classify(host, line) == File(e.source, e.target)
               && Opened(host, e.source) {
      assert e in LineEntries(host, line);
    } else if line :| Presented(host, required, line) && Classify(host, line) == BusyboxLink(e.target)
                      && e.source == BUSYBOX {
      assert e in LineEntries(host, line);
    } else {
      var x :| Reached(host, required, x) && Opened(host, x) && e.source in Hops(host.links, x);
      ReachedIsDone(host, required, done, x);
      var line :| line in done && Classify(host, line).File? && Classify(host, line).bin == x;
      var hops := Hops(host.links, x);
      var i :| 0 <= i < |hops| && hops[i] == e.source;
      assert Doubled(hops)[i] == e;
      assert e in LineEntries(host, line);
    }
  }

  // One round from left to the next file.
  lemma RoundAdvances(host: Host, required: seq<Line>, done: seq<Line>, left: seq<Line>, n: nat)
    requires Progress(host, required, done, left) && FinishesIn(host, left, n)
    ensures n > 0 && !SomeHangs(host, left)
    ensures Progress(host, required, done + left, Left(Next(host, left)))
    ensures Next(host, left).Some? ==> FinishesIn(host, Next(host, left).value, n - 1)
    ensures Entries(host, done + left) == Entries(host, done) + Entries(host, left)
    ensures SomeWrong(host, done + left) <==> SomeWrong(host, done) || SomeWrong(host, left)
  {
    hide Progress, Wrong, SomeHangs, Entries, Next;
    RoundKeepsProgress(host, required, done, left);
    EntriesAppend(host, done, left);
    assert forall line :: line in done + left <==> line in done || line in left;
  }

  lemma {:induction false} EntriesAppend(host: Host, a: seq<Line>, b: seq<Line>)
    ensures Entries(host, a + b) == Entries(host, a) + Entries(host, b)
    decreases |b|
  {
    hide LineEntries;
    if b == [] {
      assert a + b == a;
    } else {
      var init := b[..|b| - 1];
      assert (a + b)[..|a + b| - 1] == a + init;
      EntriesAppend(host, a, init);
    }
  }

  // Once a circle of files has been entered the rounds never finish.
  lemma {:induction false} CirclesNeverEnd(host: Host, lines: seq<Line>, n: nat)
    requires EntersCircle(host, lines)
    ensures !FinishesIn(host, lines, n)
    decreases n
  {
    hide Next, EntersCircle, SomeHangs;
    if n > 0 {
      CircleStays(host, lines);
      CirclesNeverEnd(host, Next(host, lines).value, n - 1);
    }
  }

  lemma CircleStays(host: Host, lines: seq<Line>)
    requires EntersCircle(host, lines)
    ensures Next(host, lines).Some? && EntersCircle(host, Next(host, lines).value)
  {
    hide Next, Classify, LibrariesBehind, Succ, GoesOn;
    var line :| line in lines && Classify(host, line).File? && GoesOn(Succ(host), Classify(host, line).bin);
    var x := Classify(host, line).bin;
    GoesOnStep(Succ(host), x);
    var y :| y in Succ(host)(x) && GoesOn(Succ(host), y);
    var l := SuccIsLibrary(host, x, y);
    assert l in LineLibraries(host, line);
    NextLineFrom(host, lines, Line(l, ""));
    NextLines(host, lines);
    InBins(host, Next(host, lines).value, Line(l, ""));
  }

  // Otherwise they do not go on beyond the longest path of files.
  lemma {:induction false} BoundedNotWorking(host: Host, lines: seq<Line>, k: nat)
    requires forall x :: x in Bins(host, lines) ==> Bounded(Succ(host), x, k)
    ensures !After(host, lines, k + 1).Working?
    decreases k
  {
    hide Next, SomeHangs, Classify, LibrariesBehind, Succ, Bounded, Bins;
    if Next(host, lines).Some? && !SomeHangs(host, lines) {
      NextLines(host, lines);
      var next := Next(host, lines).value;
      assert next[0] in next;
      var from := BinOfNext(host, lines, next[0]);
      BoundedByLayers(Succ(host), from, k);
      forall y | y in Bins(host, next)
        ensures Bounded(Succ(host), y, k - 1)
      {
        var x := NextBinFrom(host, lines, y);
        BoundedByLayers(Succ(host), x, k);
      }
      BoundedNotWorking(host, next, k - 1);
    }
  }

  lemma BinOfNext(host: Host, lines: seq<Line>, line: Line) returns (x: string)
    requires line in Left(Next(host, lines))
    ensures x in Bins(host, lines) && line.bin in LibrariesBehind(host, x)
  {
    hide Next, Classify, LibrariesBehind;
    NextLineFrom(host, lines, line);
    var from :| from in lines && line.bin in LineLibraries(host, from);
    x := Classify(host, from).bin;
    InBins(host, lines, from);
  }

  lemma NextBinFrom(host: Host, lines: seq<Line>, y: string) returns (x: string)
    requires y in Bins(host, Left(Next(host, lines)))
    ensures x in Bins(host, lines) && y in Succ(host)(x)
  {
    hide Next, Classify, LibrariesBehind, Succ;
    var line :| line in Left(Next(host, lines)) && Classify(host, line).File? && Classify(host, line).bin == y;
    NextLineFrom(host, lines, line);
    assert line == Line(line.bin, "");
    x := BinOfNext(host, lines, line);
    LibraryIsSucc(host, x, line.bin);
  }

  // Only finitely many files are libraries of others.
  ghost function Targets(host: Host): set<string> {
    set x, y | x in host.readable && y in Succ(host)(x) :: y
  }

  lemma SuccIsTarget(host: Host, x: string)
    ensures Succ(host)(x) <= Targets(host)
  {
    hide LibrariesOf, Final, Followable;
    if !Opened(host, x) {
      NoBins(host);
    }
  }

  // The rounds of the script end if and only if it can follow the links of
  // every readable file it reaches and enters no circle.
  lemma RoundsEndIff(host: Host, required: seq<Line>)
    ensures RoundsEnd(host, required) <==> AllFollowable(host, required) && !EntersCircle(host, required)
  {
    hide GoesOn, EntersCircle, AllFollowable, After, Progress, Bounded;
    if n: nat :| FinishesIn(host, required, n) {
      ProgressAtStart(host, required);
      FinishedFollowable(host, required, [], required, n);
      if EntersCircle(host, required) {
        CirclesNeverEnd(host, required, n);
      }
    }
    if AllFollowable(host, required) && !EntersCircle(host, required) {
      var k := FilesBound(host, required);
      BoundedNotWorking(host, required, k);
      ProgressAtStart(host, required);
      NeverHangs(host, required, [], required, k + 1);
      assert FinishesIn(host, required, k + 1);
    }
  }

  lemma FilesBound(host: Host, required: seq<Line>) returns (k: nat)
    requires !EntersCircle(host, required)
    ensures forall x :: x in Bins(host, required) ==> Bounded(Succ(host), x, k)
  {
    hide GoesOn, Bounded, Bins, Succ, Targets;
    forall x
      ensures Succ(host)(x) <= Targets(host)
    {
      SuccIsTarget(host, x);
    }
    k := CommonBound(Succ(host), Targets(host));
  }

  lemma {:induction false} NeverHangs(host: Host, required: seq<Line>, done: seq<Line>, left: seq<Line>, n: nat)
    requires AllFollowable(host, required) && Progress(host, required, done, left)
    ensures !After(host, left, n).Hanging?
    decreases n
  {
    hide Next, AllFollowable, Progress, SomeHangs;
    if n > 0 {
      PresentedDoesNotHang(host, required, done, left);
      RoundKeepsProgress(host, required, done, left);
      if Next(host, left).Some? {
        NeverHangs(host, required, done + left, Next(host, left).value, n - 1);
      }
    }
  }

  lemma PresentedDoesNotHang(host: Host, required: seq<Line>, done: seq<Line>, left: seq<Line>)
    requires AllFollowable(host, required) && Progress(host, required, done, left)
    ensures !SomeHangs(host, left)
  {
    hide Presented, Classify, Followable, Reached, LineLibraries;
    forall line | line in left
      ensures !Hangs(host, line)
    {
      if Classify(host, line).File? {
        PresentedReached(host, required, line);
      }
    }
  }

  lemma {:induction false} FinishedFollowable(host: Host, required: seq<Line>, done: seq<Line>, left: seq<Line>, n: nat)
    requires Progress(host, required, done, left) && FinishesIn(host, left, n)
    ensures AllFollowable(host, required)
    decreases n
  {
    hide Next, AllFollowable, Progress, SomeHangs;
    RoundAdvances(host, required, done, left, n);
    if Next(host, left).Some? {
      FinishedFollowable(host, required, done + left, Next(host, left).value, n - 1);
    } else {
      DoneFollowable(host, required, done + left);
    }
  }

  lemma DoneFollowable(host: Host, required: seq<Line>, done: seq<Line>)
    requires Progress(host, required, done, [])
    ensures AllFollowable(host, required)
  {
    hide Presented, Classify, Followable, Reached, LineLibraries;
    forall x | Reached(host, required, x) && x in host.readable
      ensures Followable(host.links, x)
    {
      ReachedIsDone(host, required, done, x);
      var line :| line in done && Classify(host, line).File? && Classify(host, line).bin == x;
      assert !Hangs(host, line);
    }
  }

  // On an acyclic graph of libraries none can be entered.
  lemma AcyclicHasNoCircle(host: Host, rank: string -> nat, required: seq<Line>)
    requires forall a, b :: b in Succ(host)(a) ==> rank(b) < rank(a)
    ensures !EntersCircle(host, required)
  {
    hide Succ, Bins, GoesOn;
    forall x
      ensures !GoesOn(Succ(host), x)
    {
      RankedEnds(Succ(host), rank, x);
    }
  }

  // One step on: where a link leads, or the libraries of a file.
  ghost function Neighbours(host: Host): string -> set<string> {
    x => if x in host.links then {Hop(host.links, x)} else Bins(host, AsLines(LibrariesOf(host, x)))
  }

  // The list is closed under links and libraries ...
  lemma ListIsClosed(host: Host, required: seq<Line>, e: Entry, y: string)
    requires AllFollowable(host, required) && !SomethingWrong(host, required)
    requires Wanted(host, required, e) && e.source != BUSYBOX && y in Neighbours(host)(e.source)
    ensures Wanted(host, required, Entry(y, y))
  {
    hide Reached, Classify, Hops, Final, Presented, Bins;
    var b := Origin(host, required, e);
    HopsContinue(host.links, b, e.source);
    if e.source in host.links {
      assert Passed(host, required, y);
    } else {
      var l := SuccIsLibrary(host, b, y);
      LibraryPresented(host, required, b, l);
      var line := Line(l, "");
      assert !Wrong(host, line);
      PresentedReached(host, required, line);
      FileOfLibrary(host, l);
    }
  }

  // The reached file behind an entry.
  lemma Origin(host: Host, required: seq<Line>, e: Entry) returns (b: string)
    requires Wanted(host, required, e) && e.source != BUSYBOX
    ensures Reached(host, required, b) && Opened(host, b) && (e.source == b || e.source in Hops(host.links, b))
  {
    hide Reached, Classify, Hops, Presented;
    if line :| Presented(host, required, line) && Classify(host, line) == File(e.source, e.target)
               && Opened(host, e.source) {
      PresentedReached(host, required, line);
      b := e.source;
    } else {
      b :| Reached(host, required, b) && Opened(host, b) && e.source in Hops(host.links, b);
    }
  }

  lemma LibraryPresented(host: Host, required: seq<Line>, b: string, l: string)
    requires Reached(host, required, b) && l in LibrariesBehind(host, b)
    ensures Presented(host, required, Line(l, ""))
  {
    hide Reached, LibrariesBehind;
  }

  lemma FileOfLibrary(host: Host, l: string)
    requires Classify(host, Line(l, "")).File?
    ensures Classify(host, Line(l, "")) == File(Classify(host, Line(l, "")).bin, Classify(host, Line(l, "")).bin)
  {
    hide Substitute;
  }

  // ... and its sources are in every set that holds the required files and is
  // closed under links and libraries.
  lemma ListIsLeast(host: Host, required: seq<Line>, s: set<string>, e: Entry)
    requires Bins(host, required) <= s && forall x :: x in s ==> Neighbours(host)(x) <= s
    requires Wanted(host, required, e) && e.source != BUSYBOX
    ensures e.source in s
  {
    hide Bins, Reached, Wanted, Hops, Final, Followable, Hop;
    var b := Origin(host, required, e);
    forall x | x in s
      ensures Succ(host)(x) <= s
    {
      SuccStays(host, s, x);
    }
    ReachedStays(host, required, s, b);
    LinksStay(host, s);
    HopsStay(host.links, b, s);
  }

  lemma LinksStay(host: Host, s: set<string>)
    requires forall x :: x in s ==> Neighbours(host)(x) <= s
    ensures forall x :: x in s && x in host.links ==> Hop(host.links, x) in s
  {
    hide Hop, Bins;
    forall x | x in s && x in host.links
      ensures Hop(host.links, x) in s
    {
      assert Hop(host.links, x) in Neighbours(host)(x);
    }
  }

  lemma SuccStays(host: Host, s: set<string>, x: string)
    requires x in s && forall x :: x in s ==> Neighbours(host)(x) <= s
    ensures Succ(host)(x) <= s
  {
    hide Bins, Final, Followable, Hop;
    if Opened(host, x) {
      LinksStay(host, s);
      HopsStay(host.links, x, s);
      FinalIsNoLink(host.links, x);
    } else {
      NoBins(host);
    }
  }

  lemma NoBins(host: Host)
    ensures Bins(host, AsLines([])) == {}
  {
  }
}
