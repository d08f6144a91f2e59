// rc: switching runlevels without starting again what kept running.
module Runlevels {

  datatype Kind = Kill | Start

  // A script K<nn>service or S<nn>service of an rc directory.
  datatype Link = Link(kind: Kind, priority: nat, service: string)

  // The rc directories by runlevel, each as the shell lists it.
  type Directories = map<string, seq<Link>>

  const NONE := "N"
  const SINGLE := "S"

  predicate Halting(level: string) {
    level == "0" || level == "6"
  }

  // How many scripts of a directory are for a service.
  function Count(links: seq<Link>, kind: Kind, service: string): nat {
    if links == [] then 0
    else (if links[0].kind == kind && links[0].service == service then 1 else 0)
         + Count(links[1..], kind, service)
  }

  function Directory(dirs: Directories, level: string): seq<Link> {
    if level in dirs then dirs[level] else []
  }

  // [ -f pattern ] holds for exactly one match, [ ! -f pattern ] for none; with
  // more than one the test fails either way.
  predicate Skips(dirs: Directories, previous: string, level: string, service: string) {
    && previous != NONE && previous != SINGLE
    && Count(Directory(dirs, previous), Start, service) == 1
    && Count(Directory(dirs, level), Kill, service) == 0
  }

  function Killed(links: seq<Link>, running: set<string>): set<string> {
    if links == [] then running
    else
      Killed(links[1..], if links[0].kind.Kill? then running - {links[0].service} else running)
  }

  // The start scripts; in the halting levels they are called to stop.
  function Started(dirs: Directories, previous: string, level: string, optimize: bool,
                   links: seq<Link>, running: set<string>): set<string>
    decreases |links|
  {
    if links == [] then running
    else
      var s := links[0].service;
      Started(dirs, previous, level, optimize, links[1..],
              if links[0].kind.Kill? || (optimize && Skips(dirs, previous, level, s)) then running
              else if Halting(level) then running - {s}
              else running + {s})
  }

  // The services running after a transition, with or without the optimization.
  function Transition(dirs: Directories, optimize: bool, running: set<string>, previous: string, level: string)
    : set<string>
  {
    if level !in dirs then running
    else
      var left := if previous == NONE then running else Killed(dirs[level], running);
      Started(dirs, previous, level, optimize, dirs[level], left)
  }

  function Transitions(dirs: Directories, optimize: bool, running: set<string>, previous: string,
                       levels: seq<string>): set<string>
    decreases |levels|
  {
    if levels == [] then running
    else Transitions(dirs, optimize, Transition(dirs, optimize, running, previous, levels[0]),
                     levels[0], levels[1..])
  }

  // Scripts that succeed: starting a service leaves it running, stopping it
  // leaves it stopped, whatever it was.
  class Init {
    const dirs: Directories
    var running: set<string>

    constructor (dirs: Directories)
      ensures this.dirs == dirs && running == {}
    {
      this.dirs := dirs;
      running := {};
    }

    method Startup(service: string, start: bool)
      modifies this
      ensures running == if start then old(running) + {service} else old(running) - {service}
    {
      running := if start then running + {service} else running - {service};
    }

    method SwitchTo(level: string, previous: string)
      modifies this
      ensures running == Transition(dirs, true, old(running), previous, level)
    {
      if level !in dirs {
        return;
      }
      hide Skips;
      var links := dirs[level];
      if previous != NONE {
        for i := 0 to |links|
          invariant Killed(links, old(running)) == Killed(links[i..], running)
        {
          assert links[i..][1..] == links[i + 1..];
          if links[i].kind.Kill? {
            Startup(links[i].service, false);
          }
        }
        assert links[|links|..] == [];
      }
      ghost var left := running;
      assert links[0..] == links;
      for i := 0 to |links|
        invariant Started(dirs, previous, level, true, links, left)
               == Started(dirs, previous, level, true, links[i..], running)
      {
        assert links[i..][1..] == links[i + 1..];
        if links[i].kind.Kill? {
          continue;
        }
        if Skips(dirs, previous, level, links[i].service) {
          continue;
        }
        Startup(links[i].service, !Halting(level));
      }
      assert links[|links|..] == [];
    }
  }

  lemma {:induction false} CountPositive(links: seq<Link>, kind: Kind, service: string)
    ensures Count(links, kind, service) > 0 <==>
      exists l :: l in links && l.kind == kind && l.service == service
  {
    if links != [] {
      CountPositive(links[1..], kind, service);
      assert links == [links[0]] + links[1..];
      if l :| l in links && l.kind == kind && l.service == service {
        assert l == links[0] || l in links[1..];
      }
    }
  }

  lemma {:induction false} KilledExactly(links: seq<Link>, running: set<string>, s: string)
    ensures s in Killed(links, running) <==> s in running && Count(links, Kill, s) == 0
  {
    if links != [] {
      KilledExactly(links[1..], if links[0].kind.Kill? then running - {links[0].service} else running, s);
    }
  }

  // A service is changed by the start scripts unless it is skipped.
  lemma {:induction false} StartedExactly(dirs: Directories, previous: string, level: string, optimize: bool,
                                          links: seq<Link>, running: set<string>, s: string)
    ensures s in Started(dirs, previous, level, optimize, links, running) <==>
      if Count(links, Start, s) > 0 && !(optimize && Skips(dirs, previous, level, s)) then !Halting(level)
      else s in running
    decreases |links|
  {
    hide Skips;
    if links != [] {
      var t := links[0].service;
      StartedExactly(dirs, previous, level, optimize, links[1..],
        if links[0].kind.Kill? || (optimize && Skips(dirs, previous, level, t)) then running
        else if Halting(level) then running - {t}
        else running + {t}, s);
    }
  }

  // The effect of a transition on one service.
  lemma TransitionExactly(dirs: Directories, optimize: bool, running: set<string>, previous: string,
                          level: string, s: string)
    requires level in dirs
    ensures s in Transition(dirs, optimize, running, previous, level) <==>
      if Count(dirs[level], Start, s) > 0 && !(optimize && Skips(dirs, previous, level, s))
      then !Halting(level)
      else s in running && (previous == NONE || Count(dirs[level], Kill, s) == 0)
  {
    hide Skips;
    KilledExactly(dirs[level], running, s);
    var left := if previous == NONE then running else Killed(dirs[level], running);
    StartedExactly(dirs, previous, level, optimize, dirs[level], left, s);
  }

  // Without a skip, services with a start script are stopped in the levels 0
  // and 6, and are running in all others.
  lemma StartedByLevel(dirs: Directories, running: set<string>, previous: string, level: string, s: string)
    requires level in dirs && Count(dirs[level], Start, s) > 0
    ensures s in Transition(dirs, false, running, previous, level) <==> level != "0" && level != "6"
  {
    TransitionExactly(dirs, false, running, previous, level, s);
  }

  // Coming from boot (N) no kill script is run, and from boot or single-user
  // mode (S) no start script is skipped.
  lemma FromBoot(dirs: Directories, running: set<string>, level: string, s: string)
    requires level in dirs && Count(dirs[level], Start, s) == 0
    ensures s in Transition(dirs, true, running, "N", level) <==> s in running
    ensures s in Transition(dirs, true, running, "S", level) <==>
      s in running && Count(dirs[level], Kill, s) == 0
    ensures Transition(dirs, true, running, "N", level) == Transition(dirs, false, running, "N", level)
    ensures Transition(dirs, true, running, "S", level) == Transition(dirs, false, running, "S", level)
  {
    hide Halting;
    TransitionExactly(dirs, true, running, "N", level, s);
    TransitionExactly(dirs, true, running, "S", level, s);
    SkippingHarmlessIff(dirs, running, "N", level);
    SkippingHarmlessIff(dirs, running, "S", level);
  }

  // From any other level a service is skipped that has one start script there
  // and no kill script here: what it was, it stays.
  lemma SkippedKeepsState(dirs: Directories, running: set<string>, previous: string, level: string, s: string)
    requires previous !in ["N", "S"] && previous in dirs && level in dirs
    requires Count(dirs[previous], Start, s) == 1 && Count(dirs[level], Kill, s) == 0
    ensures s in Transition(dirs, true, running, previous, level) <==> s in running
  {
    assert ["N", "S"][0] == "N" && ["N", "S"][1] == "S";
    TransitionExactly(dirs, true, running, previous, level, s);
  }

  // Skipping is harmless exactly if every skipped service is running already
  // (or, when halting, is not running).
  lemma SkippingHarmlessIff(dirs: Directories, running: set<string>, previous: string, level: string)
    ensures Transition(dirs, true, running, previous, level) == Transition(dirs, false, running, previous, level)
      <==> forall s :: Count(Directory(dirs, level), Start, s) > 0 && Skips(dirs, previous, level, s) ==>
             (s in running <==> !Halting(level))
  {
    if level in dirs {
      var fast, plain := Transition(dirs, true, running, previous, level),
                         Transition(dirs, false, running, previous, level);
      forall s
        ensures (s in fast <==> s in plain) <==>
          (Count(dirs[level], Start, s) > 0 && Skips(dirs, previous, level, s) ==>
            (s in running <==> !Halting(level)))
      {
        TransitionExactly(dirs, true, running, previous, level, s);
        TransitionExactly(dirs, false, running, previous, level, s);
      }
    }
  }

  const DAEMON := Link(Start, 20, "s")
  const BOTH: Directories := map["2" := [DAEMON], "3" := [DAEMON]]

  // A service of both levels that died in the first stays down in the second.
  lemma DeadStaysDown()
    ensures "s" !in Transition(BOTH, true, {}, "2", "3")
    ensures "s" in Transition(BOTH, false, {}, "2", "3")
  {
    assert BOTH["2"] == [DAEMON] && BOTH["3"] == [DAEMON] && [DAEMON][1..] == [];
    assert Count([DAEMON], Start, "s") == 1 && Count([DAEMON], Kill, "s") == 0;
    assert "2" != NONE && "2" != SINGLE;
    TransitionExactly(BOTH, true, {}, "2", "3", "s");
    TransitionExactly(BOTH, false, {}, "2", "3", "s");
  }

  // All services with a start script in the current level are running.
  ghost predicate Up(dirs: Directories, running: set<string>, level: string) {
    forall s :: Count(Directory(dirs, level), Start, s) > 0 ==> s in running
  }

  // Coming from boot, from single-user mode or from a level that is up, a
  // transition to a level that does not halt leaves that level up, and no skip
  // makes a difference.
  lemma TransitionKeepsUp(dirs: Directories, running: set<string>, previous: string, level: string)
    requires previous == NONE || previous == SINGLE || Up(dirs, running, previous)
    requires !Halting(level)
    ensures Transition(dirs, true, running, previous, level) == Transition(dirs, false, running, previous, level)
    ensures Up(dirs, Transition(dirs, true, running, previous, level), level)
  {
    SkippingHarmlessIff(dirs, running, previous, level);
    forall s | Count(Directory(dirs, level), Start, s) > 0
      ensures s in Transition(dirs, true, running, previous, level)
    {
      TransitionExactly(dirs, true, running, previous, level, s);
    }
  }

  // Over every sequence of such transitions.
  lemma {:induction false} OptimizationSound(dirs: Directories, running: set<string>, previous: string,
                                             levels: seq<string>)
    requires previous == NONE || previous == SINGLE || Up(dirs, running, previous)
    requires forall l :: l in levels ==> !Halting(l)
    ensures Transitions(dirs, true, running, previous, levels)
         == Transitions(dirs, false, running, previous, levels)
    ensures levels != [] ==>
      Up(dirs, Transitions(dirs, true, running, previous, levels), levels[|levels| - 1])
    decreases |levels|
  {
    hide Up, Transition, Halting;
    if levels != [] {
      assert levels[0] in levels;
      TransitionKeepsUp(dirs, running, previous, levels[0]);
      OptimizationSound(dirs, Transition(dirs, true, running, previous, levels[0]), levels[0], levels[1..]);
    }
  }
}
