// get_deps: what the script takes the dependencies of a module to be, from the
// lines of modules.dep.
module ModuleDeps {
  import opened Common

  // What is behind the first n slashes, nothing if there are fewer.
  function BehindSlashes(s: string, n: nat): string {
    if n == 0 then s
    else if s == "" then ""
    else BehindSlashes(s[1..], if s[0] == '/' then n - 1 else n)
  }

  // cut -d "/" -f 5-, which leaves a text without slashes alone
  function FromFifthField(s: string): string {
    if '/' in s then BehindSlashes(s, 4) else s
  }

  // A path as a regular expression at the start of a line: a dot matches any
  // character.
  predicate Matches(pattern: string, line: string) {
    |pattern| <= |line| && forall i :: 0 <= i < |pattern| ==> pattern[i] == '.' || pattern[i] == line[i]
  }

  // grep, of which the first line is read
  function FirstMatch(lines: seq<string>, pattern: string): (line: Option<string>)
    ensures line.Some? ==> line.value in lines && Matches(pattern, line.value)
  {
    if lines == [] then None
    else if Matches(pattern, lines[0]) then Some(lines[0])
    else FirstMatch(lines[1..], pattern)
  }

  // It finds a line exactly if one matches, and then the first that does.
  lemma {:induction false} FirstMatchIff(lines: seq<string>, pattern: string)
    ensures FirstMatch(lines, pattern).None? <==> forall line :: line in lines ==> !Matches(pattern, line)
    ensures FirstMatch(lines, pattern).Some? ==>
      exists i :: 0 <= i < |lines| && lines[i] == FirstMatch(lines, pattern).value
        && forall k :: 0 <= k < i ==> !Matches(pattern, lines[k])
  {
    hide Matches;
    if lines != [] {
      FirstMatchIff(lines[1..], pattern);
      assert lines == [lines[0]] + lines[1..];
      if Matches(pattern, lines[0]) {
        assert lines[0] == FirstMatch(lines, pattern).value;
      } else if FirstMatch(lines[1..], pattern).Some? {
        var i :| 0 <= i < |lines[1..]| && lines[1..][i] == FirstMatch(lines[1..], pattern).value
          && forall k :: 0 <= k < i ==> !Matches(pattern, lines[1..][k]);
        assert lines[i + 1] == FirstMatch(lines, pattern).value;
        forall k | 0 <= k < i + 1
          ensures !Matches(pattern, lines[k])
        {
          assert k > 0 ==> lines[k] == lines[1..][k - 1];
        }
      }
    }
  }

  // Without dots a pattern matches what begins with it; a dot matches any
  // character.
  lemma {:induction false} MatchesMeans(pattern: string, line: string)
    ensures '.' !in pattern ==> (Matches(pattern, line) <==> pattern <= line)
    ensures pattern <= line ==> Matches(pattern, line)
    ensures pattern != "" && line != "" && pattern[0] == '.' ==>
      (Matches(pattern, line) <==> Matches(pattern[1..], line[1..]))
  {
    if '.' !in pattern && Matches(pattern, line) {
      assert forall i :: 0 <= i < |pattern| ==> pattern[i] in pattern;
      assert pattern == line[..|pattern|];
    }
    if pattern != "" && line != "" && pattern[0] == '.' && Matches(pattern[1..], line[1..]) {
      forall i | 0 <= i < |pattern|
        ensures pattern[i] == '.' || pattern[i] == line[i]
      {
        if i > 0 {
          assert pattern[i] == pattern[1..][i - 1] && line[i] == line[1..][i - 1];
        }
      }
    }
  }

  // The words of a line.
  function Words(line: string): seq<string> {
    if line == "" then []
    else if line[0] == ' ' then Words(line[1..])
    else
      var n := WordLength(line);
      [line[..n]] + Words(line[n..])
  }

  function WordLength(line: string): (n: nat)
    ensures n <= |line|
    ensures line != "" && line[0] != ' ' ==> n > 0
  {
    if line == "" || line[0] == ' ' then 0 else 1 + WordLength(line[1..])
  }

  // None is the error that a module is not in the file. The name taken out of
  // the line is that of the module as it was given.
  function DepsOf(moddep: seq<string>, j: string): Option<seq<string>> {
    match FirstMatch(moddep, FromFifthField(j) + ":")
    case None => None
    case Some(line) => Some(Words(if Matches(j + ":", line) then line[|j| + 1..] else line))
  }

  // Modules and what they need, by their names below the module directory, as
  // lines of modules.dep with such names or with absolute ones.
  type Modules = map<string, seq<string>>

  ghost predicate Relative(name: string) {
    name != "" && name[0] != '/' && name[0] != '.' && ' ' !in name
  }

  ghost predicate ValidModules(mods: Modules) {
    forall m :: m in mods ==> Relative(m) && forall k :: k in mods[m] ==> Relative(k)
  }

  function Spaced(prefix: string, names: seq<string>): string {
    if names == [] then "" else " " + prefix + names[0] + Spaced(prefix, names[1..])
  }

  function LineOf(prefix: string, m: string, needs: seq<string>): string {
    prefix + m + ":" + Spaced(prefix, needs)
  }

  ghost predicate IsFile(moddep: seq<string>, prefix: string, mods: Modules) {
    forall line :: line in moddep ==> exists m :: m in mods && line == LineOf(prefix, m, mods[m])
  }

  // /lib/modules/version/
  function Directory(version: string): string {
    "/lib/modules/" + version + "/"
  }

  lemma {:induction false} WordAndRest(word: string, rest: string)
    requires word != "" && ' ' !in word && (rest == "" || rest[0] == ' ')
    ensures Words(word + rest) == [word] + Words(rest)
  {
    var line := word + rest;
    WordEnds(word, rest);
    assert line[0] == word[0] && word[0] in word;
    assert line[..|word|] == word && line[|word|..] == rest;
  }

  lemma {:induction false} WordEnds(word: string, rest: string)
    requires ' ' !in word && (rest == "" || rest[0] == ' ')
    ensures WordLength(word + rest) == |word|
  {
    if word == "" {
      assert word + rest == rest;
    } else {
      assert (word + rest)[1..] == word[1..] + rest;
      WordEnds(word[1..], rest);
    }
  }

  lemma {:induction false} SpacedWords(names: seq<string>)
    requires forall k :: k in names ==> Relative(k)
    ensures Words(Spaced("", names)) == names
  {
    hide Relative, Words;
    if names == [] {
      NoWords();
    } else {
      var rest := Spaced("", names[1..]);
      assert names[0] in names;
      SpacedWords(names[1..]);
      RelativeWord(names[0]);
      SpacedStarts("", names[1..]);
      WordAndRest(names[0], rest);
      LeadingSpace(names[0] + rest);
      assert Spaced("", names) == " " + (names[0] + rest);
      assert names == [names[0]] + names[1..];
    }
  }

  lemma NoWords()
    ensures Words("") == []
  {
  }

  lemma LeadingSpace(s: string)
    ensures Words(" " + s) == Words(s)
  {
    assert (" " + s)[1..] == s;
  }

  lemma SpacedStarts(prefix: string, names: seq<string>)
    ensures Spaced(prefix, names) == "" || Spaced(prefix, names)[0] == ' '
  {
  }

  lemma RelativeWord(name: string)
    requires Relative(name)
    ensures name != "" && ' ' !in name
  {
  }

  // With names below the module directory the whole line comes back, the name
  // of the module with its colon included.
  lemma RelativeDeps(moddep: seq<string>, mods: Modules, j: string)
    requires IsFile(moddep, "", mods) && ValidModules(mods) && j != "" && j[0] == '/'
    ensures DepsOf(moddep, j).Some? ==>
      exists m :: m in mods && DepsOf(moddep, j).value == [m + ":"] + mods[m]
  {
    hide Words, FromFifthField, Relative;
    var found := FirstMatch(moddep, FromFifthField(j) + ":");
    if found.Some? {
      var m :| m in mods && found.value == LineOf("", m, mods[m]);
      LineWords(m, mods[m]);
      NoMatchOfOther(j, found.value, m);
    }
  }

  // A module of the file is found.
  lemma ListedFound(moddep: seq<string>, version: string, m: string, needs: seq<string>)
    requires '/' !in version && LineOf("", m, needs) in moddep
    ensures DepsOf(moddep, Directory(version) + m).Some?
  {
    hide Words;
    FifthFieldOf(version, m);
    FirstMatchIff(moddep, m + ":");
    assert LineOf("", m, needs) == m + ":" + Spaced("", needs);
    MatchesMeans(m + ":", LineOf("", m, needs));
  }

  lemma NoMatchOfOther(j: string, line: string, m: string)
    requires j != "" && j[0] == '/' && Relative(m) && line != "" && line[0] == m[0]
    ensures !Matches(j + ":", line)
  {
    assert (j + ":")[0] == '/';
  }

  lemma LineWords(m: string, needs: seq<string>)
    requires Relative(m) && forall k :: k in needs ==> Relative(k)
    ensures LineOf("", m, needs) != "" && LineOf("", m, needs)[0] == m[0]
    ensures Words(LineOf("", m, needs)) == [m + ":"] + needs
  {
    hide Words;
    SpacedStarts("", needs);
    WordAndRest(m + ":", Spaced("", needs));
    SpacedWords(needs);
    assert LineOf("", m, needs) == (m + ":") + Spaced("", needs);
  }

  // With absolute names no line is found at all.
  lemma AbsoluteDeps(moddep: seq<string>, version: string, mods: Modules, name: string)
    requires IsFile(moddep, Directory(version), mods) && '/' !in version && Relative(name)
    ensures DepsOf(moddep, Directory(version) + name).None?
  {
    hide Words;
    var j := Directory(version) + name;
    FifthFieldOf(version, name);
    var found := FirstMatch(moddep, name + ":");
    if found.Some? {
      var m :| m in mods && found.value == LineOf(Directory(version), m, mods[m]);
      NoAbsoluteMatch(version, m, mods[m], name);
    }
  }

  lemma NoAbsoluteMatch(version: string, m: string, needs: seq<string>, name: string)
    requires Relative(name)
    ensures !Matches(name + ":", LineOf(Directory(version), m, needs))
  {
    assert LineOf(Directory(version), m, needs)[0] == '/';
    assert (name + ":")[0] == name[0];
  }

  lemma FifthFieldOf(version: string, name: string)
    requires '/' !in version
    ensures FromFifthField(Directory(version) + name) == name
  {
    hide BehindSlashes;
    var j := Directory(version) + name;
    var d, c := version + "/" + name, "modules/" + version + "/" + name;
    var b := "lib/modules/" + version + "/" + name;
    assert j[0] == '/';
    assert j == "" + "/" + b && b == "lib" + "/" + c && c == "modules" + "/" + d;
    Behind("", b, 4);
    Behind("lib", c, 3);
    Behind("modules", d, 2);
    Behind(version, name, 1);
    NoneBehind(name);
  }

  lemma NoneBehind(s: string)
    ensures BehindSlashes(s, 0) == s
  {
  }

  // Of a name with fewer than four slashes nothing is looked up, or all of it
  // if there is none.
  lemma FewFields(name: string)
    ensures '/' !in name ==> FromFifthField(name) == name
    ensures '/' in name && Slashes(name) < 4 ==> FromFifthField(name) == ""
  {
    if Slashes(name) < 4 {
      NothingBehind(name, 4);
    }
  }

  function Slashes(s: string): nat {
    if s == "" then 0 else (if s[0] == '/' then 1 else 0) + Slashes(s[1..])
  }

  lemma {:induction false} NothingBehind(s: string, n: nat)
    requires Slashes(s) < n
    ensures BehindSlashes(s, n) == ""
  {
    if s != "" {
      NothingBehind(s[1..], if s[0] == '/' then n - 1 else n);
    }
  }

  // The name is taken out of a line that begins with it, and of no other.
  lemma NameTakenOut(moddep: seq<string>, j: string, line: string, rest: string)
    requires FirstMatch(moddep, FromFifthField(j) + ":") == Some(line)
    ensures line == j + ":" + rest ==> DepsOf(moddep, j) == Some(Words(rest))
    ensures '.' !in j && !(j + ":" <= line) ==> DepsOf(moddep, j) == Some(Words(line))
  {
    hide Words, FromFifthField;
    MatchesMeans(j + ":", line);
    if line == j + ":" + rest {
      assert line[|j| + 1..] == rest;
    }
  }

  lemma {:induction false} Behind(field: string, rest: string, n: nat)
    requires n > 0 && '/' !in field
    ensures BehindSlashes(field + "/" + rest, n) == BehindSlashes(rest, n - 1)
  {
    var s := field + "/" + rest;
    if field == "" {
      assert s[1..] == rest;
    } else {
      assert s[1..] == field[1..] + "/" + rest;
      Behind(field[1..], rest, n);
    }
  }
}
