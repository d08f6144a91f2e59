// Following symbolic links as process_tmp_file does: by their text, relative
// texts through dirname and remove_dot_dot.
module Links {
  import opened Common
  import DotDot

  // What each symbolic link says.
  type Texts = map<string, string>

  function WithoutSlashes(path: string): (p: string)
    ensures p == [] || p[|p| - 1] != '/'
  {
    if path != [] && path[|path| - 1] == '/' then WithoutSlashes(path[..|path| - 1]) else path
  }

  // dirname
  function DirName(path: string): string {
    var p := WithoutSlashes(path);
    if p == "" then (if path == "" then "." else "/")
    else if LastSlash(p) == 0 then "."
    else
      var dir := WithoutSlashes(p[..LastSlash(p)]);
      if dir == "" then "/" else dir
  }

  // The directory before a name, . for a name alone, / in the root; slashes in
  // front of the name and behind it do not count.
  lemma DirNames(dir: string, name: string)
    requires '/' !in name && name != ""
    ensures DirName("") == "." && DirName("/") == "/"
    ensures DirName(name) == "." && DirName("/" + name) == "/"
    ensures dir != "" && dir[|dir| - 1] != '/' ==>
      DirName(dir + "/" + name) == dir && DirName(dir + "/" + name + "/") == dir && DirName(dir + "//" + name) == dir
  {
    hide *;
    NoDirectory(name);
    DirBefore("", name);
    OneSlashLess("");
    assert "" + "/" + name == "/" + name && "" + "/" == "/";
    if dir != "" && dir[|dir| - 1] != '/' {
      DirBefore(dir, name);
      DirBefore(dir + "/", name);
      OneSlashLess(dir);
      OneSlashLess(dir + "/");
      SlashBehind(dir + "/" + name);
      assert dir + "//" + name == dir + "/" + "/" + name;
    }
  }

  lemma NoDirectory(name: string)
    requires '/' !in name && name != ""
    ensures DirName("") == "." && DirName("/") == "/" && DirName(name) == "."
  {
    OneSlashLess("");
    assert "" + "/" == "/";
    assert name[|name| - 1] in name;
    NoSlashAtAll(name);
  }

  lemma OneSlashLess(path: string)
    ensures WithoutSlashes(path + "/") == WithoutSlashes(path)
    ensures path == "" || path[|path| - 1] != '/' ==> WithoutSlashes(path) == path
  {
    assert (path + "/")[..|path|] == path;
  }

  lemma SlashBehind(path: string)
    requires path != "" && path[|path| - 1] != '/'
    ensures DirName(path + "/") == DirName(path)
  {
    hide LastSlash;
    OneSlashLess(path);
  }

  lemma DirBefore(before: string, name: string)
    requires '/' !in name && name != ""
    ensures
      var dir := WithoutSlashes(before + "/");
      DirName(before + "/" + name) == if dir == "" then "/" else dir
  {
    hide LastSlash, WithoutSlashes;
    var path := before + "/" + name;
    NoSlashInName(before, name);
    assert path[|path| - 1] == name[|name| - 1] && name[|name| - 1] in name;
    OneSlashLess(path);
    assert path[..|before| + 1] == before + "/";
  }

  lemma {:induction false} NoSlashAtAll(name: string)
    requires '/' !in name
    ensures LastSlash(name) == 0
  {
    if name != "" {
      assert name[|name| - 1] in name;
      NoSlashAtAll(name[..|name| - 1]);
    }
  }

  predicate Absolute(text: string) {
    text != "" && text[0] == '/'
  }

  function Joined(links: Texts, x: string): string
    requires x in links
  {
    DirName(x) + "/" + links[x]
  }

  // Where a link leads, if remove_dot_dot ends on it.
  ghost predicate HopEnds(links: Texts, x: string)
    requires x in links
  {
    Absolute(links[x]) || DotDot.Ends(Joined(links, x))
  }

  ghost function Hop(links: Texts, x: string): string
    requires x in links
  {
    if Absolute(links[x]) then links[x]
    else if HopEnds(links, x) then DotDot.Outcome(Joined(links, x))
    else x
  }

  // An absolute text can always be followed, whatever it holds; a relative one
  // exactly if remove_dot_dot ends behind the directory of the link.
  lemma HopCases(links: Texts, x: string)
    requires x in links
    ensures "/" <= links[x] ==> HopEnds(links, x) && Hop(links, x) == links[x]
    ensures !("/" <= links[x]) ==> (HopEnds(links, x) <==> DotDot.Ends(DirName(x) + "/" + links[x]))
  {
    hide DotDot.Ends, DirName;
  }

  method NextHop(links: Texts, x: string) returns (y: string)
    requires x in links && HopEnds(links, x)
    ensures y == Hop(links, x)
    ensures "/" <= links[x] ==> y == links[x]
    ensures !("/" <= links[x]) ==>
      DotDot.Ends(DirName(x) + "/" + links[x])
      && y == DotDot.Outcome(DirName(x) + "/" + links[x])
  {
    var l := links[x];
    if Absolute(l) {
      y := l;
    } else {
      y := DirName(x) + "/" + l;
      y := DotDot.RemoveDotDot(y);
    }
  }

  // The links from x on are followed to their end in k steps.
  ghost predicate EndAfter(links: Texts, x: string, k: nat)
    decreases k
  {
    if x in links then k > 0 && HopEnds(links, x) && EndAfter(links, Hop(links, x), k - 1) else k == 0
  }

  ghost predicate Followable(links: Texts, x: string) {
    exists k: nat :: EndAfter(links, x, k)
  }

  ghost function Length(links: Texts, x: string): nat {
    if Followable(links, x) then
      var k: nat :| EndAfter(links, x, k);
      k
    else 0
  }

  ghost function HopsFrom(links: Texts, x: string, k: nat): seq<string>
    decreases k
  {
    if k == 0 || x !in links then [] else [Hop(links, x)] + HopsFrom(links, Hop(links, x), k - 1)
  }

  ghost function FinalFrom(links: Texts, x: string, k: nat): string
    decreases k
  {
    if k == 0 || x !in links then x else FinalFrom(links, Hop(links, x), k - 1)
  }

  // What the links from x on pass, and where they end.
  ghost function Hops(links: Texts, x: string): seq<string> {
    HopsFrom(links, x, Length(links, x))
  }

  ghost function Final(links: Texts, x: string): string {
    FinalFrom(links, x, Length(links, x))
  }

  lemma {:induction false} OneEnd(links: Texts, x: string, j: nat, k: nat)
    requires EndAfter(links, x, j) && EndAfter(links, x, k)
    ensures j == k
    decreases k
  {
    hide Hop, HopEnds;
    if x in links {
      OneEnd(links, Hop(links, x), j - 1, k - 1);
    }
  }

  lemma LengthIs(links: Texts, x: string, k: nat)
    requires EndAfter(links, x, k)
    ensures Followable(links, x) && Length(links, x) == k
  {
    hide EndAfter;
    OneEnd(links, x, Length(links, x), k);
  }

  // One step of following links.
  lemma FollowStep(links: Texts, x: string)
    requires x in links
    ensures Followable(links, x) <==> HopEnds(links, x) && Followable(links, Hop(links, x))
    ensures Followable(links, x) ==>
      var y := Hop(links, x);
      && Length(links, x) == Length(links, y) + 1
      && Hops(links, x) == [y] + Hops(links, y)
      && Final(links, x) == Final(links, y)
  {
    hide Hop, HopEnds, Length;
    var y := Hop(links, x);
    if Followable(links, x) {
      var k: nat :| EndAfter(links, x, k);
      LengthIs(links, x, k);
      LengthIs(links, y, k - 1);
    }
    if HopEnds(links, x) && Followable(links, y) {
      var k: nat :| EndAfter(links, y, k);
      assert EndAfter(links, x, k + 1);
    }
  }

  lemma NoLink(links: Texts, x: string)
    requires x !in links
    ensures Followable(links, x) && Length(links, x) == 0 && Hops(links, x) == [] && Final(links, x) == x
  {
    LengthIs(links, x, 0);
  }

  // Links end at what is no link.
  lemma {:induction false} FinalIsNoLink(links: Texts, x: string)
    requires Followable(links, x)
    ensures Final(links, x) !in links
    decreases Length(links, x)
  {
    hide *;
    if x in links {
      FollowStep(links, x);
      FinalIsNoLink(links, Hop(links, x));
    } else {
      NoLink(links, x);
    }
  }

  // From each name passed the way goes on, or it is the end.
  lemma {:induction false} HopsContinue(links: Texts, b: string, x: string)
    requires Followable(links, b) && (x == b || x in Hops(links, b))
    ensures x in links ==> Hop(links, x) in Hops(links, b)
    ensures x !in links ==> x == Final(links, b)
    decreases Length(links, b)
  {
    hide *;
    if b in links {
      FollowStep(links, b);
      if x != b {
        HopsContinue(links, Hop(links, b), x);
      }
    } else {
      NoLink(links, b);
    }
  }

  // In a set that every link of it leads back into, so do whole ways.
  lemma {:induction false} HopsStay(links: Texts, b: string, s: set<string>)
    requires Followable(links, b) && b in s
    requires forall x :: x in s && x in links ==> Hop(links, x) in s
    ensures Final(links, b) in s && forall x :: x in Hops(links, b) ==> x in s
    decreases Length(links, b)
  {
    hide *;
    if b in links {
      FollowStep(links, b);
      HopsStay(links, Hop(links, b), s);
    } else {
      NoLink(links, b);
    }
  }

  // A relative link, given by components: remove_dot_dot ends on it exactly for
  // an even number of climbs above the root, and it leads where a pass with a
  // stack does, behind two slashes for a link in the root directory.
  lemma RelativeHop(links: Texts, dir: seq<string>, name: string, to: seq<string>)
    requires DotDot.Components(dir + [name] + to) && to != []
    requires DotDot.Render(dir + [name]) in links
    requires "/" + links[DotDot.Render(dir + [name])] == DotDot.Render(to)
    ensures
      var x, r := DotDot.Render(dir + [name]), DotDot.Resolve(dir + to, DotDot.ROOT);
      && (HopEnds(links, x) <==> r.climbs % 2 == 0)
      && (HopEnds(links, x) ==>
            Hop(links, x) == (if dir == [] then "/" else "") + DotDot.Render(r.stack))
  {
    hide DotDot.Resolve, DirName, DotDot.Ends, DotDot.Component, DotDot.Render, DotDot.Outcome;
    var x := DotDot.Render(dir + [name]);
    ComponentParts(dir, name, to);
    TextIsRelative(links[x], to);
    RenderAppend(dir, to);
    DotDot.EndsIff(dir + to);
    if dir == [] {
      assert [] + [name] == [name] && dir + to == to;
      DirOfRoot(name);
      assert Joined(links, x) == "/" + DotDot.Render(to);
      DotDot.EndsIffSlashInFront(to);
    } else {
      DirOfRender(dir, name);
      assert Joined(links, x) == DotDot.Render(dir) + ("/" + links[x]);
      assert "" + Hop(links, x) == Hop(links, x);
    }
  }

  lemma ComponentParts(dir: seq<string>, name: string, to: seq<string>)
    requires DotDot.Components(dir + [name] + to)
    ensures DotDot.Components(dir + [name]) && DotDot.Components(dir + to) && DotDot.Components(to)
    ensures DotDot.Component(name)
  {
    hide DotDot.Component;
    var cs := dir + [name] + to;
    assert cs[|dir|] == name;
    assert forall i :: 0 <= i < |dir| ==> dir[i] == cs[i];
    assert forall i :: 0 <= i < |to| ==> to[i] == cs[|dir| + 1 + i];
  }

  lemma DirOfRoot(name: string)
    requires DotDot.Component(name)
    ensures DirName(DotDot.Render([name])) == "/"
  {
    hide DotDot.Render, DotDot.Component;
    DotDot.RenderOne([name]);
    assert "" + "/" + name == "/" + name;
    NameEnds("", name);
    NoSlashInName("", name);
    assert ("/" + name)[..1] == "/";
    assert "/"[..0] == "" && WithoutSlashes("") == "";
  }

  lemma TextIsRelative(text: string, to: seq<string>)
    requires to != [] && DotDot.Component(to[0]) && "/" + text == DotDot.Render(to)
    ensures !Absolute(text)
  {
    assert text == ("/" + text)[1..];
    assert DotDot.Render(to)[1] == to[0][0];
  }

  lemma {:induction false} RenderAppend(a: seq<string>, b: seq<string>)
    ensures DotDot.Render(a + b) == DotDot.Render(a) + DotDot.Render(b)
  {
    if a == [] {
      assert a + b == b;
    } else {
      assert (a + b)[1..] == a[1..] + b;
      RenderAppend(a[1..], b);
    }
  }

  lemma DirOfRender(dir: seq<string>, name: string)
    requires dir != [] && DotDot.Components(dir + [name])
    ensures DirName(DotDot.Render(dir + [name])) == DotDot.Render(dir)
  {
    hide DotDot.Render, DotDot.Component;
    var path := DotDot.Render(dir + [name]);
    var d := DotDot.Render(dir);
    RenderAppend(dir, [name]);
    DotDot.RenderOne([name]);
    assert path == d + "/" + name;
    assert (dir + [name])[|dir|] == name;
    assert forall i :: 0 <= i < |dir| ==> dir[i] == (dir + [name])[i];
    RenderEnds(dir);
    NameEnds(d, name);
    NoSlashInName(d, name);
    assert path[..|d| + 1] == d + "/";
    assert (d + "/")[..|d|] == d;
  }

  lemma NameEnds(dir: string, name: string)
    requires DotDot.Component(name)
    ensures '/' !in name && WithoutSlashes(dir + "/" + name) == dir + "/" + name
  {
    var path := dir + "/" + name;
    assert path[|path| - 1] == name[|name| - 1] && name[|name| - 1] in name;
  }

  lemma {:induction false} RenderEnds(cs: seq<string>)
    requires cs != [] && forall i :: 0 <= i < |cs| ==> DotDot.Component(cs[i])
    ensures DotDot.Render(cs) != [] && WithoutSlashes(DotDot.Render(cs)) == DotDot.Render(cs)
  {
    var init, last := cs[..|cs| - 1], cs[|cs| - 1];
    RenderAppend(init, [last]);
    assert cs == init + [last];
    DotDot.RenderOne([last]);
    assert DotDot.Render(cs) == DotDot.Render(init) + "/" + last;
    NameEnds(DotDot.Render(init), last);
  }
}
