// remove_dot_dot: as long as there is a "..", take out the leftmost
// component that is followed by one.
module DotDot {

  const UP := ".."

  // grep '\.\.'
  predicate HasDotDot(v: string) {
    exists i :: 0 <= i < |v| - 1 && v[i] == '.' && v[i + 1] == '.'
  }

  // The length of the longest prefix without a slash.
  function NameLength(v: string): (n: nat)
    ensures n <= |v|
    ensures forall i :: 0 <= i < n ==> v[i] != '/'
    ensures n < |v| ==> v[n] == '/'
  {
    if v == [] || v[0] == '/' then 0 else 1 + NameLength(v[1..])
  }

  // The length of a match of \/[^\/][^\/]*\/\.\. at the start of v, 0 if none.
  function MatchLength(v: string): (n: nat)
    ensures n <= |v|
  {
    if v == [] || v[0] != '/' then 0
    else
      var n := NameLength(v[1..]);
      if n > 0 && n + 4 <= |v| && v[n + 1..n + 4] == "/.." then n + 4 else 0
  }

  // sed 's/...//': deletes the leftmost match.
  function Sed(v: string): (r: string)
    ensures |r| <= |v|
    ensures r != v ==> |r| < |v|
  {
    if v == [] then []
    else if MatchLength(v) > 0 then v[MatchLength(v)..]
    else [v[0]] + Sed(v[1..])
  }

  // A path as a list of components.
  function Render(cs: seq<string>): string {
    if cs == [] then "" else "/" + cs[0] + Render(cs[1..])
  }

  // A component is nonempty, and ".." is in it only as the whole of it.
  predicate Component(c: string) {
    c != [] && '/' !in c && (c == UP || !HasDotDot(c))
  }

  ghost predicate Components(cs: seq<string>) {
    forall i :: 0 <= i < |cs| ==> Component(cs[i])
  }

  // One pass with a stack; going up from the root stays there and is counted.
  datatype Resolution = Resolution(stack: seq<string>, climbs: nat)

  function Resolve(cs: seq<string>, start: Resolution): Resolution
    decreases |cs|
  {
    if cs == [] then start
    else if cs[0] != UP then Resolve(cs[1..], start.(stack := start.stack + [cs[0]]))
    else if start.stack == [] then Resolve(cs[1..], start.(climbs := start.climbs + 1))
    else Resolve(cs[1..], start.(stack := start.stack[..|start.stack| - 1]))
  }

  const ROOT := Resolution([], 0)

  // The same rewriting on components.
  function RemoveFirst(cs: seq<string>): seq<string> {
    if |cs| < 2 then cs
    else if cs[1] == UP then cs[2..]
    else [cs[0]] + RemoveFirst(cs[1..])
  }

  lemma DotDotAcross(a: string, b: string)
    requires a == [] || b == [] || a[|a| - 1] != '.' || b[0] != '.'
    ensures HasDotDot(a + b) <==> HasDotDot(a) || HasDotDot(b)
  {
    var v := a + b;
    if HasDotDot(a) {
      var i :| 0 <= i < |a| - 1 && a[i] == '.' && a[i + 1] == '.';
      assert v[i] == '.' && v[i + 1] == '.';
    }
    if HasDotDot(b) {
      var i :| 0 <= i < |b| - 1 && b[i] == '.' && b[i + 1] == '.';
      assert v[|a| + i] == '.' && v[|a| + i + 1] == '.';
    }
    if HasDotDot(v) {
      var i :| 0 <= i < |v| - 1 && v[i] == '.' && v[i + 1] == '.';
      if i + 1 < |a| {
        assert a[i] == '.' && a[i + 1] == '.';
      } else {
        assert i >= |a|;
        assert b[i - |a|] == '.' && b[i + 1 - |a|] == '.';
      }
    }
  }

  // The rendered path contains ".." exactly if a component is "..".
  lemma {:induction false} GrepFindsUp(cs: seq<string>)
    requires Components(cs)
    ensures HasDotDot(Render(cs)) <==> UP in cs
  {
    if cs != [] {
      GrepFindsUp(cs[1..]);
      assert cs == [cs[0]] + cs[1..];
      DotDotAcross("/", cs[0]);
      DotDotAcross("/" + cs[0], Render(cs[1..]));
      assert UP[0] == '.' && UP[1] == '.';
      assert HasDotDot(UP);
    }
  }

  lemma {:induction false} NameOf(c: string, rest: string)
    requires '/' !in c && (rest == [] || rest[0] == '/')
    ensures NameLength(c + rest) == |c|
  {
    if c != [] {
      assert (c + rest)[1..] == c[1..] + rest;
      NameOf(c[1..], rest);
    } else {
      assert c + rest == rest;
    }
  }

  // No match starts inside a component.
  lemma {:induction false} SedSkips(c: string, rest: string)
    requires '/' !in c
    ensures Sed(c + rest) == c + Sed(rest)
  {
    if c != [] {
      assert (c + rest)[1..] == c[1..] + rest;
      SedSkips(c[1..], rest);
    } else {
      assert c + rest == rest;
    }
  }

  lemma MatchAtComponent(cs: seq<string>)
    requires Components(cs) && cs != []
    ensures MatchLength(Render(cs)) == if |cs| >= 2 && cs[1] == UP then |cs[0]| + 4 else 0
    ensures |cs| >= 2 && cs[1] == UP ==> Render(cs)[|cs[0]| + 4..] == Render(cs[2..])
  {
    hide Render;
    if |cs| == 1 {
      RenderOne(cs);
      NameOf(cs[0], "");
      assert Render(cs)[1..] == cs[0] + "";
    } else {
      RenderTwo(cs);
      MatchTwo(cs[0], cs[1], Render(cs[2..]));
    }
  }

  lemma RenderOne(cs: seq<string>)
    requires |cs| == 1
    ensures Render(cs) == "/" + cs[0]
  {
    assert cs[1..] == [];
  }

  lemma RenderTwo(cs: seq<string>)
    requires |cs| >= 2
    ensures Render(cs) == "/" + cs[0] + ("/" + cs[1] + Render(cs[2..]))
    ensures Render(cs[2..]) == [] || Render(cs[2..])[0] == '/'
  {
    assert cs[1..][1..] == cs[2..];
  }

  lemma MatchTwo(a: string, b: string, rest: string)
    requires Component(a) && Component(b) && (rest == [] || rest[0] == '/')
    ensures
      var v := "/" + a + ("/" + b + rest);
      MatchLength(v) == (if b == UP then |a| + 4 else 0)
      && (b == UP ==> v[|a| + 4..] == rest)
  {
    var tail := "/" + b + rest;
    var v, n := "/" + a + tail, |a|;
    assert v[1..] == a + tail;
    NameOf(a, tail);
    if n + 4 <= |v| {
      assert v[n + 1..n + 4] == tail[..3];
      if tail[..3] == "/.." {
        UpFromPrefix(b, rest);
      }
    }
  }

  // A component that starts with ".." is "..".
  lemma UpFromPrefix(c: string, rest: string)
    requires Component(c) && (rest == [] || rest[0] == '/')
    requires |"/" + c + rest| >= 3 && ("/" + c + rest)[..3] == "/.."
    ensures c == UP
  {
    var v := "/" + c + rest;
    assert v[..3][1] == '.' && v[..3][2] == '.';
    assert v[1] == c[0];
    if |c| > 1 {
      assert v[2] == c[1];
    }
  }

  // One sed step takes out the first component followed by "..".
  lemma {:induction false} SedRemovesFirst(cs: seq<string>)
    requires Components(cs)
    ensures Sed(Render(cs)) == Render(RemoveFirst(cs))
  {
    if cs != [] {
      MatchAtComponent(cs);
      if !(|cs| >= 2 && cs[1] == UP) {
        SedRemovesFirst(cs[1..]);
        SedOneFurther(cs[0], Render(cs[1..]));
        if |cs| == 1 {
          assert cs[1..] == [];
        } else {
          assert RemoveFirst(cs)[1..] == RemoveFirst(cs[1..]);
        }
      }
    }
  }

  lemma SedOneFurther(c: string, rest: string)
    requires '/' !in c && MatchLength("/" + c + rest) == 0
    ensures Sed("/" + c + rest) == "/" + c + Sed(rest)
  {
    hide MatchLength;
    var v := "/" + c + rest;
    assert v[1..] == c + rest;
    SedSkips(c, rest);
    SedUnfolds(v);
  }

  lemma SedUnfolds(v: string)
    requires v != [] && MatchLength(v) == 0
    ensures Sed(v) == [v[0]] + Sed(v[1..])
  {
  }

  // Where the first component is not "..", a step leaves the resolution alone.
  lemma {:induction false} StepKeeps(cs: seq<string>, start: Resolution)
    requires cs != [] && cs[0] != UP
    ensures Resolve(RemoveFirst(cs), start) == Resolve(cs, start)
    ensures UP in cs ==> |RemoveFirst(cs)| == |cs| - 2
    ensures UP !in cs ==> RemoveFirst(cs) == cs
  {
    assert cs == [cs[0]] + cs[1..];
    if |cs| >= 2 {
      var pushed := start.(stack := start.stack + [cs[0]]);
      if cs[1] == UP {
        assert cs[1..][1..] == cs[2..];
        assert pushed.stack[..|pushed.stack| - 1] == start.stack;
      } else {
        StepKeeps(cs[1..], pushed);
        assert RemoveFirst(cs)[1..] == RemoveFirst(cs[1..]);
      }
    }
  }

  // From the root a step may also take out two climbs.
  lemma StepKeepsParity(cs: seq<string>)
    ensures Resolve(RemoveFirst(cs), ROOT).stack == Resolve(cs, ROOT).stack
    ensures Resolve(RemoveFirst(cs), ROOT).climbs % 2 == Resolve(cs, ROOT).climbs % 2
    ensures UP in cs && Resolve(cs, ROOT).climbs % 2 == 0 ==> |RemoveFirst(cs)| < |cs|
  {
    if cs != [] && cs[0] == UP {
      var once := Resolution([], 1);
      assert Resolve(cs, ROOT) == Resolve(cs[1..], once);
      if |cs| >= 2 && cs[1] == UP {
        assert cs[1..][1..] == cs[2..];
        ClimbsShift(cs[2..], ROOT, 2);
      } else if |cs| >= 2 {
        StepKeeps(cs[1..], once);
        assert RemoveFirst(cs)[1..] == RemoveFirst(cs[1..]);
        if UP !in cs[1..] {
          NoUpNoClimb(cs[1..], once);
        }
      }
    } else if cs != [] {
      StepKeeps(cs, ROOT);
    }
  }

  lemma {:induction false} ClimbsShift(cs: seq<string>, start: Resolution, n: nat)
    ensures Resolve(cs, start.(climbs := start.climbs + n))
         == Resolve(cs, start).(climbs := Resolve(cs, start).climbs + n)
    decreases |cs|
  {
    if cs != [] {
      if cs[0] != UP {
        ClimbsShift(cs[1..], start.(stack := start.stack + [cs[0]]), n);
      } else if start.stack == [] {
        ClimbsShift(cs[1..], start.(climbs := start.climbs + 1), n);
      } else {
        ClimbsShift(cs[1..], start.(stack := start.stack[..|start.stack| - 1]), n);
      }
    }
  }

  lemma {:induction false} NoUpNoClimb(cs: seq<string>, start: Resolution)
    requires UP !in cs
    ensures Resolve(cs, start) == start.(stack := start.stack + cs)
    decreases |cs|
  {
    if cs != [] {
      NoUpNoClimb(cs[1..], start.(stack := start.stack + [cs[0]]));
      assert cs == [cs[0]] + cs[1..];
      assert start.stack + [cs[0]] + cs[1..] == start.stack + cs;
    }
  }

  lemma {:induction false} RemoveFirstKeepsComponents(cs: seq<string>)
    requires Components(cs)
    ensures Components(RemoveFirst(cs))
  {
    if |cs| >= 2 && cs[1] != UP {
      RemoveFirstKeepsComponents(cs[1..]);
    }
  }

  // n turns of the loop, whether it ends, and with what.
  function Rewritten(v: string, n: nat): string {
    if n == 0 then v else Sed(Rewritten(v, n - 1))
  }

  ghost predicate EndsAt(v: string, n: nat) {
    !HasDotDot(Rewritten(v, n))
  }

  ghost predicate Ends(v: string) {
    exists n: nat :: EndsAt(v, n)
  }

  ghost function Outcome(v: string): string
    requires Ends(v)
  {
    var n: nat :| EndsAt(v, n);
    Rewritten(v, n)
  }

  method RemoveDotDot(path: string) returns (v: string)
    requires Ends(path)
    ensures v == Outcome(path) && !HasDotDot(v)
  {
    hide HasDotDot, Sed, Outcome;
    v := path;
    ghost var n: nat := 0;
    ghost var last: nat :| EndsAt(path, last);
    while HasDotDot(v)
      invariant n <= last && v == Rewritten(path, n)
      decreases last - n
    {
      v := Sed(v);
      n := n + 1;
    }
    OutcomeAt(path, n);
  }

  // There is one outcome, as without ".." the rewriting changes nothing.
  lemma OutcomeAt(v: string, n: nat)
    requires EndsAt(v, n)
    ensures Outcome(v) == Rewritten(v, n)
  {
    hide HasDotDot, Sed, Rewritten;
    var m: nat :| EndsAt(v, m) && Outcome(v) == Rewritten(v, m);
    if m <= n {
      Settled(v, m, n);
    } else {
      Settled(v, n, m);
    }
  }

  lemma {:induction false} Settled(v: string, n: nat, m: nat)
    requires EndsAt(v, n) && n <= m
    ensures Rewritten(v, m) == Rewritten(v, n)
  {
    hide HasDotDot, Sed;
    if n < m {
      Settled(v, n, m - 1);
      var w := Rewritten(v, n);
      SlashHasDotDot(w);
      NoMatch(w);
    }
  }

  // A "/.." that does not begin the text: nothing else can end a match.
  ghost predicate SlashDotDot(v: string) {
    exists i :: 1 <= i < |v| - 2 && v[i] == '/' && v[i + 1] == '.' && v[i + 2] == '.'
  }

  lemma SlashHasDotDot(v: string)
    ensures SlashDotDot(v) ==> HasDotDot(v)
  {
  }

  lemma MatchHasSlash(v: string)
    requires v != []
    ensures MatchLength(v) > 0 ==> SlashDotDot(v)
    ensures SlashDotDot(v[1..]) ==> SlashDotDot(v)
  {
    var n := MatchLength(v);
    if n > 0 {
      assert v[n - 3..n][0] == '/' && v[n - 3..n][1] == '.' && v[n - 3..n][2] == '.';
      assert v[n - 3] == '/' && v[n - 2] == '.' && v[n - 1] == '.';
    }
    var w := v[1..];
    if i :| 1 <= i < |w| - 2 && w[i] == '/' && w[i + 1] == '.' && w[i + 2] == '.' {
      assert v[i + 1] == '/' && v[i + 2] == '.' && v[i + 3] == '.';
    }
  }

  lemma {:induction false} NoMatch(v: string)
    requires !SlashDotDot(v)
    ensures Sed(v) == v
  {
    hide SlashDotDot, MatchLength;
    if v != [] {
      MatchHasSlash(v);
      NoMatch(v[1..]);
      assert v == [v[0]] + v[1..];
    }
  }

  // A ".." that is not behind a slash, as in /a..b, or begins the path, as in
  // /../b, stays for ever.
  lemma {:induction false} StuckInName(v: string, n: nat)
    requires !SlashDotDot(v)
    ensures Rewritten(v, n) == v
    ensures Ends(v) <==> !HasDotDot(v)
  {
    hide HasDotDot, Sed;
    NoMatch(v);
    if n > 0 {
      StuckInName(v, n - 1);
    } else {
      assert Ends(v) ==> exists m: nat :: EndsAt(v, m);
      if m: nat :| EndsAt(v, m) {
        Unchanged(v, m);
      }
      if !HasDotDot(v) {
        assert EndsAt(v, 0);
      }
    }
  }

  lemma {:induction false} Unchanged(v: string, n: nat)
    requires Sed(v) == v
    ensures Rewritten(v, n) == v
  {
    if n > 0 {
      Unchanged(v, n - 1);
    }
  }

  // On any string the loop ends, if ever, within as many steps as there are
  // characters: until then every step shortens it or none does any more.
  lemma EndsWithin(v: string)
    ensures Ends(v) <==> EndsAt(v, |v|)
  {
    hide HasDotDot, Sed;
    StillOrShorter(v, |v|);
    var w := Rewritten(v, |v|);
    assert Sed(w) == w;
    if n: nat :| EndsAt(v, n) {
      if n <= |v| {
        Settled(v, n, |v|);
      } else {
        Still(v, |v|, n);
      }
    }
  }

  lemma {:induction false} StillOrShorter(v: string, n: nat)
    ensures Sed(Rewritten(v, n)) == Rewritten(v, n) || |Rewritten(v, n)| + n <= |v|
    ensures |Rewritten(v, n)| == 0 ==> Sed(Rewritten(v, n)) == Rewritten(v, n)
  {
    hide Sed;
    if n > 0 {
      StillOrShorter(v, n - 1);
    }
  }

  lemma {:induction false} Still(v: string, n: nat, m: nat)
    requires n <= m && Sed(Rewritten(v, n)) == Rewritten(v, n)
    ensures Rewritten(v, m) == Rewritten(v, n)
  {
    hide Sed;
    if n < m {
      Still(v, n, m - 1);
    }
  }

  // On components the loop ends exactly if the path climbs above the root an
  // even number of times (none, above all), with what one pass with a stack
  // gives.
  lemma EndsIff(cs: seq<string>)
    requires Components(cs)
    ensures Ends(Render(cs)) <==> Resolve(cs, ROOT).climbs % 2 == 0
    ensures Ends(Render(cs)) ==> Outcome(Render(cs)) == Render(Resolve(cs, ROOT).stack)
  {
    hide Resolve, Rewritten, Render, HasDotDot;
    if Resolve(cs, ROOT).climbs % 2 == 0 {
      var n := EvenClimbsEnd(cs);
      OutcomeAt(Render(cs), n);
    } else if n: nat :| EndsAt(Render(cs), n) {
      OddClimbsNeverEnd(cs, n);
    }
  }

  lemma {:induction false} EvenClimbsEnd(cs: seq<string>) returns (n: nat)
    requires Components(cs) && Resolve(cs, ROOT).climbs % 2 == 0
    ensures EndsAt(Render(cs), n) && Rewritten(Render(cs), n) == Render(Resolve(cs, ROOT).stack)
    decreases |cs|
  {
    hide Sed, RemoveFirst, HasDotDot, Render;
    GrepFindsUp(cs);
    if UP in cs {
      SedRemovesFirst(cs);
      StepKeepsParity(cs);
      RemoveFirstKeepsComponents(cs);
      n := EvenClimbsEnd(RemoveFirst(cs));
      StepBefore(Render(cs), n);
      n := n + 1;
    } else {
      n := 0;
      NoUpNoClimb(cs, ROOT);
      assert [] + cs == cs;
    }
  }

  // A slash in front of a path stays there and is in no match.
  lemma {:induction false} SlashInFront(cs: seq<string>, n: nat)
    requires Components(cs)
    ensures EndsAt("/" + Render(cs), n) <==> EndsAt(Render(cs), n)
    ensures Rewritten("/" + Render(cs), n) == "/" + Rewritten(Render(cs), n)
  {
    hide Sed, Render, HasDotDot;
    var left := StepsOnComponents(cs, n);
    RenderStarts(left);
    DotDotBehindSlash(Render(left));
    if n > 0 {
      SlashInFront(cs, n - 1);
      var before := StepsOnComponents(cs, n - 1);
      RenderStarts(before);
      SedBehindSlash(Render(before));
    }
  }

  lemma RenderStarts(cs: seq<string>)
    ensures Render(cs) == "" || Render(cs)[0] == '/'
  {
  }

  lemma DotDotBehindSlash(v: string)
    ensures HasDotDot("/" + v) <==> HasDotDot(v)
  {
    DotDotAcross("/", v);
  }

  lemma SedBehindSlash(v: string)
    requires v == "" || v[0] == '/'
    ensures Sed("/" + v) == "/" + Sed(v)
  {
    hide Sed;
    assert ("/" + v)[1..] == v;
    SedUnfolds("/" + v);
  }

  lemma EndsIffSlashInFront(cs: seq<string>)
    requires Components(cs)
    ensures Ends("/" + Render(cs)) <==> Ends(Render(cs))
    ensures Ends(Render(cs)) ==> Outcome("/" + Render(cs)) == "/" + Outcome(Render(cs))
  {
    hide EndsAt, Rewritten, Render;
    if n: nat :| EndsAt("/" + Render(cs), n) {
      SlashInFront(cs, n);
    }
    if n: nat :| EndsAt(Render(cs), n) {
      SlashInFront(cs, n);
      OutcomeAt(Render(cs), n);
      OutcomeAt("/" + Render(cs), n);
    }
  }

  lemma {:induction false} StepBefore(v: string, n: nat)
    ensures Rewritten(v, n + 1) == Rewritten(Sed(v), n)
  {
    hide Sed;
    if n > 0 {
      StepBefore(v, n - 1);
    } else {
      assert Rewritten(v, 1) == Sed(Rewritten(v, 0));
    }
  }

  // For an odd number of climbs there is a ".." after any number of steps.
  lemma {:induction false} OddClimbsNeverEnd(cs: seq<string>, n: nat)
    requires Components(cs) && Resolve(cs, ROOT).climbs % 2 == 1
    ensures HasDotDot(Rewritten(Render(cs), n))
  {
    var left := StepsOnComponents(cs, n);
    GrepFindsUp(left);
    if UP !in left {
      NoUpNoClimb(left, ROOT);
    }
  }

  lemma {:induction false} StepsOnComponents(cs: seq<string>, n: nat) returns (left: seq<string>)
    requires Components(cs)
    ensures Components(left) && Rewritten(Render(cs), n) == Render(left)
    ensures Resolve(left, ROOT).climbs % 2 == Resolve(cs, ROOT).climbs % 2
  {
    hide Sed, Render, RemoveFirst;
    left := cs;
    if n > 0 {
      left := StepsOnComponents(cs, n - 1);
      SedRemovesFirst(left);
      StepKeepsParity(left);
      RemoveFirstKeepsComponents(left);
      left := RemoveFirst(left);
    }
  }

  // One climb, two climbs, and ".." inside a name.
  lemma ClimbsAndNames()
    ensures !Ends("/bin/../..")
    ensures Ends("/bin/../../../lib") && Outcome("/bin/../../../lib") == "/lib"
    ensures !Ends("/a..b")
  {
    hide Ends, Outcome, Render, Resolve, Components;
    OneClimb("bin");
    TwoClimbs("bin", "lib");
    assert "/" + "bin" + "/../.." == "/bin/../..";
    assert "/" + "bin" + "/../../../" + "lib" == "/bin/../../../lib" && "/" + "lib" == "/lib";
    EndsIff(["bin", UP, UP]);
    EndsIff(["bin", UP, UP, UP, "lib"]);
    var name := "/a..b";
    assert name[2] == '.' && name[3] == '.';
    StuckInName(name, 0);
  }

  lemma {:induction false} RenderCons(c: string, rest: seq<string>)
    ensures Render([c] + rest) == "/" + c + Render(rest)
  {
    assert ([c] + rest)[1..] == rest;
  }

  lemma {:induction false} ResolveCons(c: string, rest: seq<string>, start: Resolution)
    ensures Resolve([c] + rest, start)
         == Resolve(rest, if c != UP then start.(stack := start.stack + [c])
                          else if start.stack == [] then start.(climbs := start.climbs + 1)
                          else start.(stack := start.stack[..|start.stack| - 1]))
  {
    assert ([c] + rest)[1..] == rest;
  }

  lemma {:induction false} UpAgain(rest: seq<string>, n: nat)
    ensures Resolve([UP] + rest, Resolution([], n)) == Resolve(rest, Resolution([], n + 1))
    ensures Render([UP] + rest) == "/.." + Render(rest)
  {
    hide Resolve, Render;
    ResolveCons(UP, rest, Resolution([], n));
    RenderCons(UP, rest);
    assert "/" + UP == "/..";
  }

  lemma {:induction false} NameAndUp(a: string, rest: seq<string>)
    requires a != UP
    ensures Resolve([a] + ([UP] + rest), ROOT) == Resolve(rest, ROOT)
    ensures Render([a] + ([UP] + rest)) == "/" + a + ("/.." + Render(rest))
  {
    hide Resolve, Render;
    ResolveCons(a, [UP] + rest, ROOT);
    ResolveCons(UP, rest, Resolution([a], 0));
    assert [a][..0] == [] && [] + [a] == [a];
    RenderCons(a, [UP] + rest);
    UpAgain(rest, 0);
  }

  lemma OneClimb(a: string)
    requires Component(a) && a != UP
    ensures Components([a, UP, UP]) && Resolve([a, UP, UP], ROOT) == Resolution([], 1)
    ensures Render([a, UP, UP]) == "/" + a + "/../.."
  {
    var once := [UP] + [];
    NameAndUp(a, once);
    UpAgain([], 0);
    assert [a, UP, UP] == [a] + ([UP] + once);
    assert "/.." + "/.." == "/../..";
  }

  lemma TwoClimbs(a: string, b: string)
    requires Component(a) && Component(b) && a != UP && b != UP
    ensures Components([a, UP, UP, UP, b]) && Resolve([a, UP, UP, UP, b], ROOT) == Resolution([b], 2)
    ensures Render([a, UP, UP, UP, b]) == "/" + a + "/../../../" + b
    ensures Render([b]) == "/" + b
  {
    assert Component(UP);
    hide Component;
    var last, once := [b] + [], [UP] + [b];
    var twice := [UP] + once;
    NameAndUp(a, twice);
    UpAgain(once, 0);
    UpAgain([b], 1);
    ResolveCons(b, [], Resolution([], 2));
    RenderCons(b, []);
    assert last == [b] && [] + [b] == [b];
    assert [a, UP, UP, UP, b] == [a] + ([UP] + twice);
    assert "/.." + ("/.." + ("/.." + ("/" + b))) == "/../../../" + b;
  }
}
