// copy_config: a kernel configuration with some variables overridden.
module ConfigMerge {
  import opened Common

  // An entry of new_vars; a list of them stands for the dictionary, in its
  // order.
  datatype Override = Override(name: string, value: string)

  const PREFIX := "CONFIG_"
  const NOT_SET := " is not set"

  predicate NameChar(c: char) {
    'A' <= c <= 'Z' || '0' <= c <= '9' || c == '_'
  }

  function NameRun(s: string): (n: nat)
    ensures n <= |s|
  {
    if s == [] || !NameChar(s[0]) then 0 else 1 + NameRun(s[1..])
  }

  // CONFIG_[A-Z0-9_]+ at the start of a string: its length, 0 if none.
  function VarLength(s: string): (n: nat)
    ensures n <= |s|
  {
    if PREFIX <= s && NameRun(s[|PREFIX|..]) > 0 then |PREFIX| + NameRun(s[|PREFIX|..]) else 0
  }

  // The variable a line is about: NAME=... or # NAME is not set
  function VarOf(line: string): Option<string> {
    var n := VarLength(line);
    if n > 0 && n < |line| && line[n] == '=' then Some(line[..n])
    else if |line| >= 2 && line[..2] == "# " then
      var m := VarLength(line[2..]);
      if m > 0 && line[2..][m..] == NOT_SET then Some(line[2..][..m]) else None
    else None
  }

  // y$|m$|["0-9], where $ also stands before a last newline
  predicate Plain(value: string) {
    value in ["y", "m", "y\n", "m\n"] || (value != "" && (value[0] == '"' || '0' <= value[0] <= '9'))
  }

  function ConfigLine(o: Override): string {
    if o.value == "n" then "# " + o.name + NOT_SET
    else o.name + "=" + (if Plain(o.value) then o.value else "\"" + o.value + "\"")
  }

  // The names the patterns recognise.
  ghost predicate Recognised(name: string) {
    VarLength(name) == |name| > 0
  }

  // The keys of a dictionary.
  ghost predicate Distinct(news: seq<Override>) {
    forall i, j :: 0 <= i < j < |news| ==> news[i].name != news[j].name
  }

  // The names get_kernel_config_vars collects begin with CONFIG_, and those of
  // BitBake variables hold no equals sign.
  ghost predicate Collected(news: seq<Override>) {
    && Distinct(news)
    && forall o :: o in news ==> PREFIX <= o.name && '=' !in o.name
  }

  predicate Has(news: seq<Override>, name: string) {
    exists o :: o in news && o.name == name
  }

  function Get(news: seq<Override>, name: string): (o: Override)
    requires Has(news, name)
    ensures o in news && o.name == name
  {
    if news[0].name == name then news[0] else Get(news[1..], name)
  }

  // del new_vars[name]
  function Without(news: seq<Override>, name: string): seq<Override> {
    if news == [] then []
    else (if news[0].name == name then [] else [news[0]]) + Without(news[1..], name)
  }

  function ConfigLines(news: seq<Override>): (lines: seq<string>)
    ensures |lines| == |news|
  {
    if news == [] then [] else [ConfigLine(news[0])] + ConfigLines(news[1..])
  }

  predicate Overridden(line: string, news: seq<Override>) {
    VarOf(line).Some? && Has(news, VarOf(line).value)
  }

  // The merged lines: the first line about an overridden variable is replaced,
  // and what has not been placed follows at the end.
  function Merge(lines: seq<string>, news: seq<Override>): seq<string> {
    if lines == [] then ConfigLines(news)
    else if Overridden(lines[0], news) then
      var name := VarOf(lines[0]).value;
      [ConfigLine(Get(news, name))] + Merge(lines[1..], Without(news, name))
    else [lines[0]] + Merge(lines[1..], news)
  }

  // The lines of a text, without their newlines, and back.
  function Lines(text: string): seq<string> {
    if text == "" then []
    else
      var n := LineLength(text);
      [text[..n]] + (if n < |text| then Lines(text[n + 1..]) else [])
  }

  function LineLength(text: string): (n: nat)
    ensures n <= |text|
    ensures n < |text| ==> text[n] == '\n'
    ensures '\n' !in text[..n]
  {
    if text == "" || text[0] == '\n' then 0 else 1 + LineLength(text[1..])
  }

  function Text(lines: seq<string>): string {
    if lines == [] then "" else lines[0] + "\n" + Text(lines[1..])
  }

  lemma {:induction false} LinesOfText(lines: seq<string>)
    requires forall l :: l in lines ==> '\n' !in l
    ensures Lines(Text(lines)) == lines
  {
    if lines != [] {
      var rest := Text(lines[1..]);
      LengthOfFirst(lines[0], rest);
      var text := Text(lines);
      assert text == lines[0] + "\n" + rest;
      assert text[|lines[0]| + 1..] == rest;
      assert text[..|lines[0]|] == lines[0];
      LinesOfText(lines[1..]);
    }
  }

  lemma {:induction false} LengthOfFirst(line: string, rest: string)
    requires '\n' !in line
    ensures LineLength(line + "\n" + rest) == |line|
  {
    if line != "" {
      assert (line + "\n" + rest)[1..] == line[1..] + "\n" + rest;
      LengthOfFirst(line[1..], rest);
    }
  }

  lemma {:induction false} LinesAreLines(text: string)
    ensures forall l :: l in Lines(text) ==> '\n' !in l
  {
    if text != "" && LineLength(text) < |text| {
      LinesAreLines(text[LineLength(text) + 1..]);
    }
  }

  method CopyConfig(config: string, newVars: seq<Override>) returns (newConfig: string)
    ensures newConfig == Text(Merge(Lines(config), newVars))
  {
    hide VarOf, ConfigLine, Has, Get, Without;
    var lines, news := Lines(config), newVars;
    var done: seq<string> := [];
    for i := 0 to |lines|
      invariant done + Merge(lines[i..], news) == Merge(lines, newVars)
    {
      var line := lines[i];
      assert lines[i..][0] == line && lines[i..][1..] == lines[i + 1..];
      var name := VarOf(line);
      ghost var rest := Merge(lines[i..], news);
      if name.Some? && Has(news, name.value) {
        assert Overridden(line, news);
        var new' := ConfigLine(Get(news, name.value));
        assert done + ([new'] + Merge(lines[i + 1..], Without(news, name.value)))
            == done + [new'] + Merge(lines[i + 1..], Without(news, name.value));
        done := done + [new'];
        news := Without(news, name.value);
      } else {
        assert done + ([line] + Merge(lines[i + 1..], news)) == done + [line] + Merge(lines[i + 1..], news);
        done := done + [line];
      }
    }
    assert lines[|lines|..] == [];
    ghost var all := done + ConfigLines(news);
    for i := 0 to |news|
      invariant done + ConfigLines(news[i..]) == all
    {
      assert news[i..][1..] == news[i + 1..];
      assert done + ([ConfigLine(news[i])] + ConfigLines(news[i + 1..]))
          == done + [ConfigLine(news[i])] + ConfigLines(news[i + 1..]);
      done := done + [ConfigLine(news[i])];
    }
    assert news[|news|..] == [] && done + [] == done;
    newConfig := Text(done);
  }

  lemma {:induction false} RunStops(s: string, rest: string)
    requires NameRun(s) == |s| && (rest == "" || !NameChar(rest[0]))
    ensures NameRun(s + rest) == |s|
  {
    if s == "" {
      assert s + rest == rest;
    } else {
      assert (s + rest)[1..] == s[1..] + rest;
      RunStops(s[1..], rest);
    }
  }

  lemma {:induction false} RunHolds(s: string)
    requires NameRun(s) == |s|
    ensures forall c :: c in s ==> NameChar(c)
  {
    if s != "" {
      assert s == [s[0]] + s[1..];
      RunHolds(s[1..]);
    }
  }

  lemma VarLengthStops(name: string, rest: string)
    requires Recognised(name) && (rest == "" || !NameChar(rest[0]))
    ensures VarLength(name + rest) == |name|
  {
    var s := name[|PREFIX|..];
    assert (name + rest)[|PREFIX|..] == s + rest;
    RunStops(s, rest);
  }

  // What is written for a variable is read as being about it.
  lemma ConfigLineIsAbout(o: Override)
    requires Recognised(o.name)
    ensures VarOf(ConfigLine(o)) == Some(o.name)
  {
    hide VarOf;
    var name := o.name;
    if o.value == "n" {
      NotSetIsAbout(name);
    } else {
      SetIsAbout(name, if Plain(o.value) then o.value else "\"" + o.value + "\"");
    }
  }

  lemma NotSetIsAbout(name: string)
    requires Recognised(name)
    ensures VarOf("# " + name + NOT_SET) == Some(name)
  {
    hide NameRun;
    var line, tail := "# " + name + NOT_SET, name + NOT_SET;
    assert line[..2] == "# " && line[2..] == tail;
    assert line[0] == '#' && PREFIX[0] == 'C';
    VarLengthStops(name, NOT_SET);
    assert tail[|name|..] == NOT_SET && tail[..|name|] == name;
  }

  lemma SetIsAbout(name: string, value: string)
    requires Recognised(name)
    ensures VarOf(name + "=" + value) == Some(name)
  {
    hide NameRun;
    var line := name + "=" + value;
    assert line == name + ("=" + value);
    VarLengthStops(name, "=" + value);
    assert line[..|name|] == name;
  }

  lemma {:induction false} RunOfPrefix(s: string)
    ensures NameRun(s[..NameRun(s)]) == NameRun(s)
  {
    if s != "" && NameChar(s[0]) {
      assert s[..NameRun(s)][1..] == s[1..][..NameRun(s[1..])];
      RunOfPrefix(s[1..]);
    }
  }

  lemma NameOfPrefix(s: string)
    requires VarLength(s) > 0
    ensures Recognised(s[..VarLength(s)])
  {
    var tail := s[|PREFIX|..];
    RunOfPrefix(tail);
    assert s[..VarLength(s)][|PREFIX|..] == tail[..NameRun(tail)];
  }

  // A line is about a variable exactly if it has one of the two forms.
  lemma VarOfIff(line: string, name: string)
    ensures VarOf(line) == Some(name) <==>
      Recognised(name)
      && ((exists value :: line == name + "=" + value) || line == "# " + name + NOT_SET)
  {
    hide VarOf, Recognised;
    if VarOf(line) == Some(name) {
      VarOfForms(line, name);
    } else if Recognised(name) {
      if value :| line == name + "=" + value {
        SetIsAbout(name, value);
      } else {
        NotSetIsAbout(name);
      }
    }
  }

  lemma VarOfForms(line: string, name: string)
    requires VarOf(line) == Some(name)
    ensures Recognised(name)
    ensures (exists value :: line == name + "=" + value) || line == "# " + name + NOT_SET
  {
    hide NameRun, Recognised;
    var n := VarLength(line);
    if n > 0 && n < |line| && line[n] == '=' {
      NameOfPrefix(line);
      assert line == name + "=" + line[n + 1..];
    } else {
      NameOfPrefix(line[2..]);
      assert line == line[..2] + line[2..];
      assert line[2..] == name + line[2..][VarLength(line[2..])..];
    }
  }

  lemma RecognisedHolds(name: string)
    requires Recognised(name)
    ensures PREFIX <= name && '=' !in name && '\n' !in name
  {
    RunHolds(name[|PREFIX|..]);
    assert name == PREFIX + name[|PREFIX|..];
  }

  // A written line is about no other variable than its own.
  lemma WrittenIsOwn(o: Override, name: string)
    requires PREFIX <= o.name && '=' !in o.name && VarOf(ConfigLine(o)) == Some(name)
    ensures Recognised(name) && name == o.name
  {
    hide VarOf, Recognised;
    var line := ConfigLine(o);
    VarOfIff(line, name);
    RecognisedHolds(name);
    if o.value == "n" {
      assert PREFIX[0] == 'C' && line[0] == '#';
      assert line == "# " + name + NOT_SET;
      assert line[2..] == o.name + NOT_SET && line[2..] == name + NOT_SET;
      assert line[2..][..|name|] == name;
    } else {
      assert PREFIX[0] == 'C' && line[0] == 'C';
      var value :| line == name + "=" + value;
      UpToEquals(o.name, line[|o.name| + 1..], name, value);
    }
  }

  lemma {:induction false} UpToEquals(a: string, u: string, b: string, v: string)
    requires a + "=" + u == b + "=" + v && '=' !in a && '=' !in b
    ensures a == b
  {
    var s := a + "=" + u;
    if a != "" && b != "" {
      assert s[0] == a[0] == b[0];
      assert s[1..] == a[1..] + "=" + u == b[1..] + "=" + v;
      UpToEquals(a[1..], u, b[1..], v);
      assert a == [a[0]] + a[1..] && b == [b[0]] + b[1..];
    } else {
      assert s[|a|] == '=' && s[|b|] == '=';
    }
  }

  // The recognised names by their characters.
  lemma RecognisedIff(name: string)
    ensures Recognised(name) <==>
      exists tail :: tail != "" && name == "CONFIG_" + tail
        && forall c :: c in tail ==> c in "ABCDEFGHIJKLMNOPQRSTUVWXYZ" || c in "0123456789" || c == '_'
  {
    forall c: char
      ensures NameChar(c) <==> c in "ABCDEFGHIJKLMNOPQRSTUVWXYZ" || c in "0123456789" || c == '_'
    {
      Letters(c);
      Digits(c);
    }
    if Recognised(name) {
      var tail := name[|PREFIX|..];
      RunHolds(tail);
      assert name == "CONFIG_" + tail;
    }
    if tail :| tail != "" && name == "CONFIG_" + tail && forall c :: c in tail ==> NameChar(c) {
      assert name[|PREFIX|..] == tail;
      RunIsAll(tail);
    }
  }

  lemma Letters(c: char)
    ensures c in "ABCDEFGHIJKLMNOPQRSTUVWXYZ" <==> 'A' <= c <= 'Z'
  {
    var letters := "ABCDEFGHIJKLMNOPQRSTUVWXYZ";
    assert forall i :: 0 <= i < |letters| ==> 'A' <= letters[i] <= 'Z';
    if 'A' <= c <= 'Z' {
      var i := c as int - 'A' as int;
      assert letters[i] == c;
    }
  }

  lemma {:induction false} RunIsAll(s: string)
    requires forall c :: c in s ==> NameChar(c)
    ensures NameRun(s) == |s|
  {
    if s != "" {
      assert s[0] in s && forall c :: c in s[1..] ==> c in s;
      RunIsAll(s[1..]);
    }
  }

  lemma {:induction false} WithoutOthers(news: seq<Override>, name: string)
    ensures forall o :: o in Without(news, name) <==> o in news && o.name != name
    ensures forall v :: Has(Without(news, name), v) <==> Has(news, v) && v != name
    ensures Distinct(news) ==> Distinct(Without(news, name))
    ensures Distinct(news) ==>
      forall v :: Has(news, v) && v != name ==> Get(Without(news, name), v) == Get(news, v)
  {
    if news != [] {
      WithoutOthers(news[1..], name);
      assert news == [news[0]] + news[1..];
    }
    if Distinct(news) {
      WithoutDistinct(news, name);
      forall v | Has(news, v) && v != name
        ensures Get(Without(news, name), v) == Get(news, v)
      {
        GetUnique(news, Get(news, v), Get(Without(news, name), v));
      }
    }
  }

  lemma GetUnique(news: seq<Override>, a: Override, b: Override)
    requires Distinct(news) && a in news && b in news && a.name == b.name
    ensures a == b
  {
    var i :| 0 <= i < |news| && news[i] == a;
    var j :| 0 <= j < |news| && news[j] == b;
  }

  lemma {:induction false} WithoutDistinct(news: seq<Override>, name: string)
    requires Distinct(news)
    ensures Distinct(Without(news, name))
    ensures forall o :: o in Without(news, name) ==> o in news
  {
    if news != [] {
      WithoutDistinct(news[1..], name);
      forall o | o in news[1..]
        ensures o.name != news[0].name
      {
        var j :| 1 <= j < |news| && news[j] == o;
      }
      assert news == [news[0]] + news[1..];
    }
  }

  lemma WithoutFirst(news: seq<Override>)
    requires Distinct(news) && news != []
    ensures Without(news, news[0].name) == news[1..]
  {
    WithoutAbsent(news[1..], news[0].name);
  }

  lemma {:induction false} WithoutAbsent(news: seq<Override>, name: string)
    requires forall o :: o in news ==> o.name != name
    ensures Without(news, name) == news
  {
    if news != [] {
      WithoutAbsent(news[1..], name);
      assert news == [news[0]] + news[1..];
    }
  }

  ghost predicate AllRecognised(news: seq<Override>) {
    forall o :: o in news ==> Recognised(o.name)
  }

  // Merging the same overrides again changes nothing exactly if the patterns
  // recognise all the names; the other ones are written once more.
  lemma MergeTwiceIff(lines: seq<string>, news: seq<Override>)
    requires Distinct(news)
    ensures Merge(Merge(lines, news), news) == Merge(lines, news) <==> AllRecognised(news)
  {
    MergeGrows(Merge(lines, news), news);
    if AllRecognised(news) {
      MergeTwice(lines, news);
    }
  }

  lemma {:induction false} MergeTwice(lines: seq<string>, news: seq<Override>)
    requires Distinct(news) && AllRecognised(news)
    ensures Merge(Merge(lines, news), news) == Merge(lines, news)
    decreases |lines|
  {
    hide VarOf, ConfigLine, Without, Get, Recognised;
    if lines == [] {
      MergeNewLines(news);
    } else if Overridden(lines[0], news) {
      var name := VarOf(lines[0]).value;
      var o := Get(news, name);
      ConfigLineIsAbout(o);
      WithoutDistinct(news, name);
      MergeTwice(lines[1..], Without(news, name));
      assert Merge(lines, news)[1..] == Merge(lines[1..], Without(news, name));
    } else {
      MergeTwice(lines[1..], news);
      assert Merge(lines, news)[1..] == Merge(lines[1..], news);
    }
  }

  lemma {:induction false} MergeNewLines(news: seq<Override>)
    requires Distinct(news) && AllRecognised(news)
    ensures Merge(ConfigLines(news), news) == ConfigLines(news)
  {
    hide VarOf, ConfigLine, Recognised;
    if news != [] {
      var o := news[0];
      ConfigLineIsAbout(o);
      assert o in news;
      GetUnique(news, o, Get(news, o.name));
      WithoutFirst(news);
      MergeNewLines(news[1..]);
      assert ConfigLines(news)[1..] == ConfigLines(news[1..]);
    }
  }

  // A name that a line is about is recognised.
  lemma MatchedIsRecognised(line: string)
    requires VarOf(line).Some?
    ensures Recognised(VarOf(line).value)
  {
    VarOfIff(line, VarOf(line).value);
  }

  // There is a new line for every override that matches no line.
  lemma {:induction false} MergeGrows(lines: seq<string>, news: seq<Override>)
    requires Distinct(news)
    ensures |Merge(lines, news)| >= |lines|
    ensures |Merge(lines, news)| == |lines| ==> AllRecognised(news)
    decreases |lines|
  {
    hide VarOf, ConfigLine, Without, Get, Recognised;
    if lines != [] {
      if Overridden(lines[0], news) {
        var name := VarOf(lines[0]).value;
        MatchedIsRecognised(lines[0]);
        WithoutOthers(news, name);
        MergeGrows(lines[1..], Without(news, name));
        assert forall o :: o in news && o.name != name ==> o in Without(news, name);
      } else {
        MergeGrows(lines[1..], news);
      }
    }
  }

  // The same on texts. A second run of copy_config gives identical text exactly
  // if all names are recognised and no value has a newline: of such a value
  // the first line is replaced by the whole, and the remainder stays.
  lemma CopyTwiceIff(config: string, news: seq<Override>)
    requires Distinct(news)
    ensures
      var once := Text(Merge(Lines(config), news));
      Text(Merge(Lines(once), news)) == once
      <==> forall o :: o in news ==> Recognised(o.name) && '\n' !in o.value
  {
    hide VarOf, Merge;
    var merged := Merge(Lines(config), news);
    var once := Text(merged);
    LinesAreLines(config);
    LinesAreLines(once);
    if AllOneLined(news) {
      assert AllRecognised(news);
      MergeKeepsLines(Lines(config), news);
      LinesOfText(merged);
      MergeTwice(Lines(config), news);
    } else {
      TextLines(merged);
      TextGrows(Lines(once), news);
    }
  }

  ghost predicate AllOneLined(news: seq<Override>) {
    forall o :: o in news ==> Recognised(o.name) && '\n' !in o.value
  }

  function Newlines(s: string): nat {
    if s == "" then 0 else (if s[0] == '\n' then 1 else 0) + Newlines(s[1..])
  }

  lemma {:induction false} NewlinesIn(s: string)
    ensures Newlines(s) == 0 <==> '\n' !in s
  {
    if s != "" {
      NewlinesIn(s[1..]);
      assert s == [s[0]] + s[1..];
    }
  }

  lemma {:induction false} NewlinesAppend(s: string, t: string)
    ensures Newlines(s + t) == Newlines(s) + Newlines(t)
  {
    if s == "" {
      assert s + t == t;
    } else {
      assert (s + t)[1..] == s[1..] + t;
      NewlinesAppend(s[1..], t);
    }
  }

  lemma NewlinesOfLine(line: string, rest: string)
    ensures Newlines(line + "\n" + rest) == Newlines(line) + 1 + Newlines(rest)
  {
    NewlinesAppend(line + "\n", rest);
    NewlinesAppend(line, "\n");
    assert "\n"[1..] == "";
  }

  // A written text has as many lines as newlines.
  lemma TextLines(lines: seq<string>)
    ensures |Lines(Text(lines))| == Newlines(Text(lines))
  {
    TextEnds(lines);
    LinesAreNewlines(Text(lines));
  }

  lemma {:induction false} TextEnds(lines: seq<string>)
    ensures Text(lines) == "" || Text(lines)[|Text(lines)| - 1] == '\n'
  {
    if lines != [] {
      TextEnds(lines[1..]);
    }
  }

  lemma {:induction false} LinesAreNewlines(text: string)
    requires text == "" || text[|text| - 1] == '\n'
    ensures |Lines(text)| == Newlines(text)
  {
    hide Newlines, LineLength;
    NewlinesIn("");
    if text != "" {
      var n := LineLength(text);
      FullLine(text);
      var rest := text[n + 1..];
      assert text == text[..n] + "\n" + rest;
      NewlinesOfLine(text[..n], rest);
      NewlinesIn(text[..n]);
      LinesAreNewlines(rest);
    }
  }

  lemma FullLine(text: string)
    requires text != "" && text[|text| - 1] == '\n'
    ensures LineLength(text) < |text|
  {
    hide LineLength;
    assert text == text[..LineLength(text)] + text[LineLength(text)..];
    assert text[|text| - 1] in text;
  }

  // Merging puts in one newline for every override that matches no line, and
  // those of the values.
  lemma {:induction false} TextGrows(lines: seq<string>, news: seq<Override>)
    requires Distinct(news) && forall l :: l in lines ==> '\n' !in l
    ensures Newlines(Text(Merge(lines, news))) >= |lines|
    ensures Newlines(Text(Merge(lines, news))) == |lines| ==> AllOneLined(news)
    decreases |lines|
  {
    hide VarOf, ConfigLine, Without, Get, Recognised, Newlines;
    var merged := Merge(lines, news);
    if merged != [] {
      NewlinesOfLine(merged[0], Text(merged[1..]));
      NewlinesIn(merged[0]);
    }
    if lines == [] {
      assert news != [] ==> merged != [];
    } else if Overridden(lines[0], news) {
      var name := VarOf(lines[0]).value;
      var rest := Without(news, name);
      MatchedIsRecognised(lines[0]);
      WithoutOthers(news, name);
      assert merged[1..] == Merge(lines[1..], rest);
      TextGrows(lines[1..], rest);
      if Newlines(Text(merged)) == |lines| {
        RecognisedHolds(name);
        LineIsOneLined(Get(news, name));
        forall o | o in news
          ensures Recognised(o.name) && '\n' !in o.value
        {
          if o.name == name {
            GetUnique(news, o, Get(news, name));
          } else {
            assert o in rest;
          }
        }
      }
    } else {
      assert merged[1..] == Merge(lines[1..], news);
      TextGrows(lines[1..], news);
    }
  }

  lemma LineIsOneLined(o: Override)
    requires '\n' !in o.name
    ensures '\n' !in ConfigLine(o) <==> '\n' !in o.value
  {
    if o.value != "n" {
      var written := if Plain(o.value) then o.value else "\"" + o.value + "\"";
      assert forall c :: c in o.value ==> c in written;
      assert forall c :: c in written ==> c in ConfigLine(o);
    }
  }

  // Merging puts in no newlines.
  lemma {:induction false} MergeKeepsLines(lines: seq<string>, news: seq<Override>)
    requires Distinct(news) && AllOneLined(news) && forall l :: l in lines ==> '\n' !in l
    ensures forall l :: l in Merge(lines, news) ==> '\n' !in l
    decreases |lines|
  {
    hide VarOf, ConfigLine, Without, Recognised;
    if lines == [] {
      NewLinesAreLines(news);
    } else if Overridden(lines[0], news) {
      var name := VarOf(lines[0]).value;
      RecognisedHolds(name);
      LineIsOneLined(Get(news, name));
      WithoutDistinct(news, name);
      MergeKeepsLines(lines[1..], Without(news, name));
    } else {
      MergeKeepsLines(lines[1..], news);
    }
  }

  lemma {:induction false} NewLinesAreLines(news: seq<Override>)
    requires AllOneLined(news)
    ensures forall l :: l in ConfigLines(news) ==> '\n' !in l
  {
    hide ConfigLine, Recognised;
    if news != [] {
      RecognisedHolds(news[0].name);
      LineIsOneLined(news[0]);
      NewLinesAreLines(news[1..]);
    }
  }

  // Reading a configuration: the last line about a variable counts.
  function LastAbout(lines: seq<string>, name: string): Option<string> {
    if lines == [] then None
    else if LastAbout(lines[1..], name).Some? then LastAbout(lines[1..], name)
    else if VarOf(lines[0]) == Some(name) then Some(lines[0])
    else None
  }

  function Count(lines: seq<string>, name: string): nat {
    if lines == [] then 0 else (if VarOf(lines[0]) == Some(name) then 1 else 0) + Count(lines[1..], name)
  }

  lemma {:induction false} CountIsLast(lines: seq<string>, name: string)
    ensures Count(lines, name) > 0 <==> LastAbout(lines, name).Some?
    ensures Count(lines, name) > 0 ==> Recognised(name)
  {
    hide VarOf, Recognised;
    if lines != [] {
      CountIsLast(lines[1..], name);
      if VarOf(lines[0]) == Some(name) {
        MatchedIsRecognised(lines[0]);
      }
    }
  }

  lemma WithoutCollected(news: seq<Override>, name: string)
    requires Collected(news)
    ensures Collected(Without(news, name))
    ensures forall v :: Has(Without(news, name), v) <==> Has(news, v) && v != name
    ensures forall v :: Has(news, v) && v != name ==> Get(Without(news, name), v) == Get(news, v)
  {
    hide Has, Get, Without;
    WithoutOthers(news, name);
  }

  // Which variable a written line is about.
  lemma WrittenAbout(o: Override)
    requires PREFIX <= o.name && '=' !in o.name
    ensures VarOf(ConfigLine(o)) == if Recognised(o.name) then Some(o.name) else None
  {
    hide VarOf, ConfigLine, Recognised;
    if Recognised(o.name) {
      ConfigLineIsAbout(o);
    } else if VarOf(ConfigLine(o)).Some? {
      WrittenIsOwn(o, VarOf(ConfigLine(o)).value);
    }
  }

  // Variables without an override keep what they had.
  lemma {:induction false} MergeKeepsOthers(lines: seq<string>, news: seq<Override>, name: string)
    requires Collected(news) && !Has(news, name)
    ensures LastAbout(Merge(lines, news), name) == LastAbout(lines, name)
    ensures Count(Merge(lines, news), name) == Count(lines, name)
    decreases |lines|
  {
    hide VarOf, ConfigLine, Without, Get, Recognised;
    if lines == [] {
      NewLinesAbout(news, name);
    } else if Overridden(lines[0], news) {
      var over := VarOf(lines[0]).value;
      WrittenAbout(Get(news, over));
      WithoutCollected(news, over);
      MergeKeepsOthers(lines[1..], Without(news, over), name);
      assert Merge(lines, news)[1..] == Merge(lines[1..], Without(news, over));
    } else {
      MergeKeepsOthers(lines[1..], news, name);
      assert Merge(lines, news)[1..] == Merge(lines[1..], news);
    }
  }

  lemma {:induction false} NewLinesAbout(news: seq<Override>, name: string)
    requires Collected(news)
    ensures !Has(news, name) || !Recognised(name) ==>
      LastAbout(ConfigLines(news), name).None? && Count(ConfigLines(news), name) == 0
    ensures Has(news, name) && Recognised(name) ==>
      LastAbout(ConfigLines(news), name) == Some(ConfigLine(Get(news, name)))
      && Count(ConfigLines(news), name) == 1
  {
    hide VarOf, ConfigLine, Recognised;
    if news != [] {
      WrittenAbout(news[0]);
      NewLinesAbout(news[1..], name);
      assert news == [news[0]] + news[1..];
      assert ConfigLines(news)[1..] == ConfigLines(news[1..]);
      if news[0].name == name {
        assert news[0] in news;
        assert !Has(news[1..], name);
      } else {
        assert Has(news, name) <==> Has(news[1..], name);
      }
    }
  }

  // An overridden variable: its first line is replaced, or one is added; any
  // further lines stay as they were. A name that is not recognised gets a line
  // that is about no variable.
  lemma {:induction false} MergeOverrides(lines: seq<string>, news: seq<Override>, name: string)
    requires Collected(news) && Has(news, name)
    ensures LastAbout(Merge(lines, news), name)
         == if !Recognised(name) then None
            else if Count(lines, name) <= 1 then Some(ConfigLine(Get(news, name)))
            else LastAbout(lines, name)
    ensures Count(Merge(lines, news), name)
         == if Recognised(name) && Count(lines, name) == 0 then 1 else Count(lines, name)
    decreases |lines|
  {
    hide VarOf, ConfigLine, Without, Get, Recognised;
    CountIsLast(lines, name);
    if lines == [] {
      NewLinesAbout(news, name);
    } else if Overridden(lines[0], news) {
      var over := VarOf(lines[0]).value;
      MatchedIsRecognised(lines[0]);
      WrittenAbout(Get(news, over));
      WithoutCollected(news, over);
      var rest := Without(news, over);
      CountIsLast(lines[1..], name);
      if over == name {
        MergeKeepsOthers(lines[1..], rest, name);
      } else {
        MergeOverrides(lines[1..], rest, name);
      }
      assert Merge(lines, news)[1..] == Merge(lines[1..], rest);
      CountIsLast(Merge(lines[1..], rest), name);
    } else {
      MergeOverrides(lines[1..], news, name);
      assert Merge(lines, news)[1..] == Merge(lines[1..], news);
      CountIsLast(Merge(lines[1..], news), name);
    }
  }

  // Line by line: the first line about an overridden variable is replaced in
  // its place, and every other line stays in its own.
  lemma {:induction false} MergeAt(lines: seq<string>, news: seq<Override>, i: nat)
    requires Distinct(news) && i < |lines|
    ensures i < |Merge(lines, news)|
    ensures Merge(lines, news)[i]
         == if Overridden(lines[i], news) && Count(lines[..i], VarOf(lines[i]).value) == 0
            then ConfigLine(Get(news, VarOf(lines[i]).value))
            else lines[i]
    decreases |lines|
  {
    hide VarOf, ConfigLine, Without, Get, Has, Merge, Distinct;
    MergeStep(lines, news);
    if i > 0 {
      CountOfPrefix(lines, i);
      assert lines[1..][i - 1] == lines[i];
      if Overridden(lines[0], news) {
        var name := VarOf(lines[0]).value;
        WithoutOthers(news, name);
        MergeAt(lines[1..], Without(news, name), i - 1);
      } else {
        MergeAt(lines[1..], news, i - 1);
      }
    } else {
      assert lines[..0] == [];
    }
  }

  lemma CountOfPrefix(lines: seq<string>, i: nat)
    requires 0 < i <= |lines|
    ensures forall name ::
      Count(lines[..i], name)
      == (if VarOf(lines[0]) == Some(name) then 1 else 0) + Count(lines[1..][..i - 1], name)
  {
    hide VarOf;
    assert lines[..i][1..] == lines[1..][..i - 1];
  }

  // What is written: a value of n as a line that says not set; y, m, numbers
  // and what begins with a quote as they are; anything else between quotes.
  lemma WrittenValue(o: Override)
    ensures o.value == "n" ==> ConfigLine(o) == "# " + o.name + " is not set"
    ensures o.value != "n" && StandsAsIs(o.value) ==> ConfigLine(o) == o.name + "=" + o.value
    ensures !StandsAsIs(o.value) ==> ConfigLine(o) == o.name + "=" + "\"" + o.value + "\""
  {
    if o.value != "" {
      var c := o.value[0];
      assert c in "0123456789" <==> '0' <= c <= '9' by { Digits(c); }
    }
    assert o.name + "=" + ("\"" + o.value + "\"") == o.name + "=" + "\"" + o.value + "\"";
  }

  predicate StandsAsIs(value: string) {
    || value in ["n", "y", "m", "y\n", "m\n"]
    || (value != "" && (value[0] == '\"' || value[0] in "0123456789"))
  }

  lemma Digits(c: char)
    ensures c in "0123456789" <==> '0' <= c <= '9'
  {
    var digits := "0123456789";
    assert forall i :: 0 <= i < |digits| ==> '0' <= digits[i] <= '9';
    if '0' <= c <= '9' {
      var i := c as int - '0' as int;
      assert digits[i] == c;
    }
  }

  // What a configuration gives a variable: the value behind the equals sign of
  // the last line about it, or n if that says not set.
  function Setting(lines: seq<string>, name: string): Option<string> {
    match LastAbout(lines, name)
    case None => None
    case Some(line) => Some(ValueIn(line, name))
  }

  function ValueIn(line: string, name: string): string {
    if line == "# " + name + NOT_SET then "n"
    else if |line| > |name| then line[|name| + 1..]
    else ""
  }

  lemma ValueWritten(o: Override)
    requires PREFIX <= o.name
    ensures ValueIn(ConfigLine(o), o.name)
         == if StandsAsIs(o.value) then o.value else "\"" + o.value + "\""
  {
    hide Plain, StandsAsIs;
    WrittenValue(o);
    if o.value != "n" {
      var v := if StandsAsIs(o.value) then o.value else "\"" + o.value + "\"";
      assert ConfigLine(o) == o.name + "=" + v;
      assert ConfigLine(o)[0] == PREFIX[0] && ("# " + o.name + NOT_SET)[0] == '#';
      assert (o.name + "=" + v)[|o.name| + 1..] == v;
    } else {
      AsIsN();
    }
  }

  lemma AsIsN()
    ensures StandsAsIs("n")
  {
  }

  // Reading back gives the override exactly if its name is recognised and the
  // old configuration does not go on to set the variable to something else.
  lemma OverrideTakesEffectIff(lines: seq<string>, news: seq<Override>, name: string)
    requires Collected(news) && Has(news, name)
    ensures
      var value := Get(news, name).value;
      var shown := Some(if StandsAsIs(value) then value else "\"" + value + "\"");
      Setting(Merge(lines, news), name) == shown
      <==> Recognised(name) && (Count(lines, name) <= 1 || Setting(lines, name) == shown)
  {
    hide Merge, Count, LastAbout, ValueIn, ConfigLine, StandsAsIs, Recognised, Get, Has;
    MergeOverrides(lines, news, name);
    ValueWritten(Get(news, name));
    CountIsLast(lines, name);
  }

  // A number is written as it is.
  lemma NumberStands()
    ensures Setting(Merge([], [Override("CONFIG_HZ", "100")]), "CONFIG_HZ") == Some("100")
  {
    hide Merge, LastAbout, ConfigLine, ValueIn;
    var o := Override("CONFIG_HZ", "100");
    assert "CONFIG_HZ"[|PREFIX|..] == "HZ" && "HZ"[1..] == "Z" && "Z"[1..] == "" && NameRun("HZ") == 2;
    assert o in [o] && Get([o], "CONFIG_HZ") == o && Collected([o]);
    assert o.value[0] == "0123456789"[1];
    OverrideTakesEffectIff([], [o], "CONFIG_HZ");
  }

  // The lines about no overridden variable, in order.
  function Others(lines: seq<string>, news: seq<Override>): seq<string> {
    if lines == [] then []
    else (if Overridden(lines[0], news) then [] else [lines[0]]) + Others(lines[1..], news)
  }

  ghost function Unrecognised(news: seq<Override>): seq<Override> {
    if news == [] then []
    else (if Recognised(news[0].name) then [] else [news[0]]) + Unrecognised(news[1..])
  }

  // They are kept, and the lines for names that are not recognised follow them.
  lemma {:induction false} OthersInOrder(lines: seq<string>, left: seq<Override>, news: seq<Override>)
    requires Collected(left) && forall o :: o in left ==> o in news
    ensures Others(Merge(lines, left), news) == Others(lines, news) + ConfigLines(Unrecognised(left))
    decreases |lines|
  {
    hide *;
    if lines == [] {
      NewLinesOverridden(left, news);
      MergeOfNone(left);
      OthersOfNone(news);
    } else {
      var tail := ConfigLines(Unrecognised(left));
      MergeStep(lines, left);
      OthersStep(lines, news);
      OthersStep(Merge(lines, left), news);
      if Overridden(lines[0], left) {
        var over := VarOf(lines[0]).value;
        OverrideWritten(lines[0], left, news);
        UnrecognisedWithout(left, over);
        OthersInOrder(lines[1..], Without(left, over), news);
      } else {
        OthersInOrder(lines[1..], left, news);
        assert [lines[0]] + (Others(lines[1..], news) + tail) == ([lines[0]] + Others(lines[1..], news)) + tail;
      }
    }
  }

  lemma MergeOfNone(news: seq<Override>)
    ensures Merge([], news) == ConfigLines(news)
  {
  }

  lemma MergeStep(lines: seq<string>, news: seq<Override>)
    requires lines != []
    ensures Overridden(lines[0], news) ==> VarOf(lines[0]).Some? && Has(news, VarOf(lines[0]).value)
    ensures
      var merged := Merge(lines, news);
      && merged != []
      && if Overridden(lines[0], news) then
           var name := VarOf(lines[0]).value;
           merged[0] == ConfigLine(Get(news, name)) && merged[1..] == Merge(lines[1..], Without(news, name))
         else
           merged[0] == lines[0] && merged[1..] == Merge(lines[1..], news)
  {
    hide VarOf, ConfigLine, Get, Without, Has;
  }

  lemma OthersOfNone(news: seq<Override>)
    ensures Others([], news) == []
  {
  }

  lemma OthersStep(lines: seq<string>, news: seq<Override>)
    requires lines != []
    ensures Others(lines, news)
         == if Overridden(lines[0], news) then Others(lines[1..], news) else [lines[0]] + Others(lines[1..], news)
  {
    hide Overridden;
  }

  // A line that is replaced and its replacement are both overridden.
  lemma OverrideWritten(line: string, left: seq<Override>, news: seq<Override>)
    requires Collected(left) && Overridden(line, left) && forall o :: o in left ==> o in news
    ensures
      var name := VarOf(line).value;
      && Recognised(name) && Collected(Without(left, name))
      && (forall o :: o in Without(left, name) ==> o in news)
      && Overridden(line, news) && Overridden(ConfigLine(Get(left, name)), news)
  {
    hide VarOf, ConfigLine, Without, Get, Recognised;
    var name := VarOf(line).value;
    var o := Get(left, name);
    MatchedIsRecognised(line);
    WrittenAbout(o);
    WithoutOthers(left, name);
    assert o in news;
  }

  lemma {:induction false} UnrecognisedWithout(news: seq<Override>, name: string)
    requires Recognised(name)
    ensures Unrecognised(Without(news, name)) == Unrecognised(news)
  {
    hide Recognised;
    if news != [] {
      UnrecognisedWithout(news[1..], name);
      var left := Without(news, name);
      if news[0].name == name {
        assert left == Without(news[1..], name);
      } else {
        assert left == [news[0]] + Without(news[1..], name);
        assert left[0] == news[0] && left[1..] == Without(news[1..], name);
      }
    }
  }

  lemma {:induction false} NewLinesOverridden(left: seq<Override>, news: seq<Override>)
    requires Collected(left) && forall o :: o in left ==> o in news
    ensures Others(ConfigLines(left), news) == ConfigLines(Unrecognised(left))
  {
    hide VarOf, ConfigLine, Recognised, Others, Has;
    if left == [] {
      OthersOfNone(news);
    } else {
      var o := left[0];
      WrittenAbout(o);
      assert o in left && o in news;
      HasIn(news, o);
      NewLinesOverridden(left[1..], news);
      OthersStep(ConfigLines(left), news);
      assert ConfigLines(left)[1..] == ConfigLines(left[1..]);
      var rest := Unrecognised(left[1..]);
      if Recognised(o.name) {
        assert Unrecognised(left) == rest;
      } else {
        assert Unrecognised(left) == [o] + rest;
        assert Unrecognised(left)[1..] == rest;
      }
    }
  }

  lemma HasIn(news: seq<Override>, o: Override)
    requires o in news
    ensures Has(news, o.name)
  {
  }

  // A kernel option in mixed case is written again by the second run.
  lemma MixedCaseWrittenAgain()
    ensures
      var news := [Override("CONFIG_SCx200", "y")];
      var once := Text(Merge(Lines(""), news));
      once == "CONFIG_SCx200=y\n" && Text(Merge(Lines(once), news)) != once
  {
    hide *;
    var o := Override("CONFIG_SCx200", "y");
    var news := [o];
    MixedCaseUnrecognised();
    OneNewLine(o);
    CopyTwiceIff("", news);
    assert o in news;
    TextOfLine(ConfigLine(o));
    MixedCaseLine(o);
  }

  lemma MixedCaseUnrecognised()
    ensures !Recognised("CONFIG_SCx200")
  {
    hide NameRun;
    var name := "CONFIG_SCx200";
    assert name[|PREFIX|..] == "SCx200";
    NameRunStep("SCx200");
    assert "SCx200"[1..] == "Cx200" && "Cx200"[1..] == "x200";
    NameRunStep("Cx200");
    NameRunStep("x200");
  }

  lemma NameRunStep(s: string)
    requires s != ""
    ensures NameRun(s) == if NameChar(s[0]) then 1 + NameRun(s[1..]) else 0
  {
  }

  lemma OneNewLine(o: Override)
    ensures Distinct([o]) && Merge(Lines(""), [o]) == [ConfigLine(o)]
  {
    hide ConfigLine;
    assert [o][1..] == [];
  }

  lemma MixedCaseLine(o: Override)
    requires o == Override("CONFIG_SCx200", "y")
    ensures ConfigLine(o) + "\n" == "CONFIG_SCx200=y\n"
  {
    assert Plain(o.value);
    assert "CONFIG_SCx200" + "=" + "y" + "\n" == "CONFIG_SCx200=y\n";
  }

  lemma TextOfLine(line: string)
    ensures Text([line]) == line + "\n"
  {
    assert [line][1..] == [] && Text([]) == "";
  }

  // Of a variable set twice only the first line is replaced.
  lemma SecondLineWins()
    ensures
      var lines, news := ["CONFIG_A=y", "CONFIG_A=m"], [Override("CONFIG_A", "n")];
      Merge(lines, news) == ["# CONFIG_A is not set", "CONFIG_A=m"]
      && LastAbout(Merge(lines, news), "CONFIG_A") == Some("CONFIG_A=m")
  {
    hide VarOf;
    var o := Override("CONFIG_A", "n");
    var lines, news := ["CONFIG_A=y", "CONFIG_A=m"], [o];
    assert "CONFIG_A"[|PREFIX|..] == "A" && "A"[1..] == "" && NameRun("A") == 1;
    SetIsAbout("CONFIG_A", "y");
    SetIsAbout("CONFIG_A", "m");
    assert lines[0] == "CONFIG_A" + "=" + "y" && lines[1] == "CONFIG_A" + "=" + "m";
    assert news[0] == o && o in news && Has(news, "CONFIG_A");
    assert news[1..] == [] && Without(news, "CONFIG_A") == [];
    assert lines[1..] == [lines[1]] && lines[1..][1..] == [];
    assert Merge(lines[1..], []) == [lines[1]] + Merge([], []);
    assert ConfigLine(o) == "# CONFIG_A is not set";
    assert Merge(lines, news)[1..] == [lines[1]];
    assert LastAbout([lines[1]], "CONFIG_A") == Some(lines[1]);
  }
}
