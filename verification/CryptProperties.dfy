// What holds of every start of a crypttab line, and of every run.
module CryptProperties {
  import opened CryptModel
  import opened CryptDisks
  import opened Common

  predicate NeedsPassphrase(line: Line)
    requires line.parsed.Some?
  {
    line.parsed.value.useLuks || line.parsed.value.useTcrypt
  }

  // A start maps the final name or nothing: a failure past the tests leaves
  // neither name, a LUKS or tcrypt success exactly the final one.
  lemma StartMapsFinalNameOnly(w: World, s: State, line: Line)
    requires Finite(w, s, line)
    ensures
      var (after, code) := Handle(w, s, line);
      && (after.table == s.table || after.table == s.table[line.dst := line.src])
      && (!Ready(w, s, line) || code == 1 ==> after.table == s.table)
      && (Ready(w, s, line) && code == 0 && NeedsPassphrase(line) ==>
            after.table == s.table[line.dst := line.src])
  {
    if Ready(w, s, line) {
      var temp := Temp(line.dst);
      SetupTable(w, s, line);
      assert (s.table[temp := line.src] - {temp})[line.dst := line.src] == s.table[line.dst := line.src];
    }
  }

  lemma StartKeepsOrMaps(w: World, s: State, line: Line)
    requires Finite(w, s, line)
    ensures
      var after := Handle(w, s, line).0;
      after.table == s.table
      || (line.dst !in s.table && Temp(line.dst) !in s.table
          && after.table == s.table[line.dst := line.src])
  {
    hide Setup;
    StartMapsFinalNameOnly(w, s, line);
  }

  // Where the passphrase of a line comes from: a key script gets the key for
  // its argument; otherwise "none" asks the user, and a key is a file, which
  // for LUKS and tcrypt goes through cat unless its name holds /dev/.
  lemma KeySources(line: Line)
    requires line.parsed.Some? && line.key != ""
    ensures
      var o, source := line.parsed.value, SourceOfLine(line);
      && (o.keyScript.DecryptKeyctl? ==> source == Keyctl(line.key))
      && (o.keyScript.OtherScript? ==> source == Script(line.key))
      && (o.keyScript.NoScript? && line.key == "none" ==> source == Askpass)
      && (o.keyScript.NoScript? && line.key != "none" ==>
            if NeedsPassphrase(line) && !(exists a, b :: line.key == a + "/dev/" + b) then source == Cat(line.key)
            else source == KeyFile(line.key))
  {
    var key := line.key;
    if HasDev(key) {
      var i :| 0 <= i <= |key| && DEV <= key[i..];
      assert key == key[..i] + "/dev/" + key[i..][5..];
    }
    if a, b :| key == a + "/dev/" + b {
      assert key[|a|..] == "/dev/" + b;
      assert HasDev(key);
    }
  }

  // What attempt n hands to cryptsetup: of the keyring only the first attempt
  // sees anything.
  function Fed(w: World, keyring: map<string, string>, source: KeySource, src: string, n: nat): Option<string> {
    match source
    case Keyctl(id) =>
      var typed := w.types(src, n);
      if n == 0 && id in keyring then Some(keyring[id])
      else if typed.added && typed.timed then typed.text
      else None
    case Askpass => w.types(src, n).text
    case _ => w.supply(source, src, n)
  }

  ghost predicate OpensAt(w: World, keyring: map<string, string>, source: KeySource, src: string, n: nat) {
    var fed := Fed(w, keyring, source, src, n);
    fed.Some? && src in w.slots && fed.value in w.slots[src]
  }

  // The first attempt that opens the device, from number tried on.
  ghost predicate FirstOpener(w: World, keyring: map<string, string>, source: KeySource, src: string,
                              tried: nat, n: nat)
  {
    && tried <= n && OpensAt(w, keyring, source, src, n)
    && forall m :: tried <= m < n ==> !OpensAt(w, keyring, source, src, m)
  }

  lemma {:induction false} RetryFindsFirst(w: World, s: State, source: KeySource, src: string, temp: string,
                                           tried: nat, limit: nat)
    ensures
      var n := Retry(w, s, source, src, temp, tried, limit).1;
      && (n.Some? ==> n.value < limit && FirstOpener(w, s.keyring, source, src, tried, n.value))
      && (n.None? ==> forall m: nat :: tried <= m < limit ==> !OpensAt(w, s.keyring, source, src, m))
    decreases limit - tried
  {
    if tried < limit {
      var (fedState, fed) := Feed(w, s, source, src, tried);
      assert fed == Fed(w, s.keyring, source, src, tried);
      assert Accepts(w, src, fed) <==> OpensAt(w, s.keyring, source, src, tried);
      if !Accepts(w, src, fed) {
        var counted := fedState.(opens := fedState.opens + 1);
        RetryFindsFirst(w, counted, source, src, temp, tried + 1, limit);
        forall m: nat | m > tried
          ensures OpensAt(w, counted.keyring, source, src, m) <==> OpensAt(w, s.keyring, source, src, m)
        {
        }
      }
    }
  }

  // A LUKS or tcrypt start succeeds exactly if some attempt within the tries
  // opens the device, and the check passes on the first that does.
  lemma UnlockSuccessIff(w: World, s: State, line: Line)
    requires Ready(w, s, line) && Finite(w, s, line)
    requires NeedsPassphrase(line) && Tested(w, line)
    ensures
      var o := line.parsed.value;
      Handle(w, s, line).1 == 0 <==>
        exists n: nat :: FirstOpener(w, s.keyring, SourceOfLine(line), line.src, 0, n)
          && (o.tries == 0 || n < o.tries) && (!o.hasCheck || w.checks(line.src, n))
    ensures Handle(w, s, line).1 <= 1
  {
    hide Retry, Ends, FirstOpener, SourceOfLine;
    var o, source, temp := line.parsed.value, SourceOfLine(line), Temp(line.dst);
    var limit := Limit(w, s, source, line.src, temp, o.tries);
    var found := Retry(w, s, source, line.src, temp, 0, limit).1;
    RetryFindsFirst(w, s, source, line.src, temp, 0, limit);
    LimitFinds(w, s, source, line.src, temp, o.tries);
    forall n: nat | FirstOpener(w, s.keyring, source, line.src, 0, n) && (o.tries == 0 || n < o.tries)
      ensures found == Some(n)
    {
      FirstIsFound(w, s, source, line.src, limit, found, n);
    }
  }

  lemma LimitFinds(w: World, s: State, source: KeySource, src: string, temp: string, tries: nat)
    requires Ends(w, s, source, src, temp, tries)
    ensures
      var limit := Limit(w, s, source, src, temp, tries);
      && (tries > 0 ==> limit == tries)
      && (tries == 0 ==> Retry(w, s, source, src, temp, 0, limit).1.Some?)
  {
  }

  lemma FirstIsFound(w: World, s: State, source: KeySource, src: string, limit: nat, found: Option<nat>, n: nat)
    requires found.Some? ==> FirstOpener(w, s.keyring, source, src, 0, found.value)
    requires found.None? ==> n < limit && forall m: nat :: m < limit ==> !OpensAt(w, s.keyring, source, src, m)
    requires FirstOpener(w, s.keyring, source, src, 0, n)
    ensures found == Some(n)
  {
    hide OpensAt;
  }

  // A check that never passes keeps the device from being mapped.
  lemma FailedCheckFails(w: World, s: State, line: Line)
    requires Ready(w, s, line) && Finite(w, s, line) && NeedsPassphrase(line) && Tested(w, line)
    requires line.parsed.value.hasCheck && forall n: nat :: !w.checks(line.src, n)
    ensures Handle(w, s, line).1 == 1 && Handle(w, s, line).0.table == s.table
  {
    hide Setup;
    UnlockSuccessIff(w, s, line);
    StartMapsFinalNameOnly(w, s, line);
  }

  // A device that is not what the line says is left alone.
  lemma WrongKindFails(w: World, s: State, line: Line)
    requires Ready(w, s, line) && Finite(w, s, line)
    requires if line.parsed.value.useLuks then line.src !in w.luks else line.src !in w.prechecked
    ensures Handle(w, s, line) == (s, 1)
  {
  }

  // Why a line is not started: a missing field, bad options, an ignored line,
  // a bad key, a missing device, or a name that is mapped.
  ghost predicate LeftAlone(w: World, s: State, line: Line) {
    || "" in [line.dst, line.src, line.key, line.opts]
    || line.parsed.None?
    || (line.parsed.value.ignore && !w.forceStart)
    || !line.keyValid
    || line.src !in w.sources
    || line.dst in s.table
    || line.dst + "_unformatted" in s.table
  }

  // Then everything stays as it is. That is no error exactly if the line is
  // ignored, or in order but for a missing device of a line that is not loud,
  // or mapped already.
  lemma NotStarted(w: World, s: State, line: Line)
    requires Finite(w, s, line)
    ensures LeftAlone(w, s, line) <==> !Ready(w, s, line)
    ensures LeftAlone(w, s, line) ==>
      var (after, code) := Handle(w, s, line);
      && after == s && code <= 1
      && (code == 0 <==>
            "" !in [line.dst, line.src, line.key, line.opts] && line.parsed.Some?
            && ((line.parsed.value.ignore && !w.forceStart)
                || (line.keyValid && (line.src in w.sources || !line.parsed.value.loud))))
  {
    NoField(line);
  }

  lemma NoField(line: Line)
    ensures "" in [line.dst, line.src, line.key, line.opts] <==>
      line.dst == "" || line.src == "" || line.key == "" || line.opts == ""
  {
    var fields := [line.dst, line.src, line.key, line.opts];
    assert fields[0] == line.dst && fields[1] == line.src && fields[2] == line.key && fields[3] == line.opts;
  }

  // The first attempt on a plain device that its check lets pass.
  function FirstPass(w: World, src: string, o: Options, tried: nat): (n: nat)
    ensures tried <= n && (tried <= o.tries ==> n <= o.tries)
    decreases o.tries - tried
  {
    if tried >= o.tries || !o.hasCheck || w.checks(src, tried) then tried
    else FirstPass(w, src, o, tried + 1)
  }

  lemma {:induction false} PlainRun(w: World, s: State, o: Options, source: KeySource, src: string,
                                    temp: string, tried: nat)
    requires tried < o.tries && temp !in s.table
    ensures
      var (after, ok) := PlainAttempts(w, s, o, source, src, temp, tried);
      var n := FirstPass(w, src, o, tried);
      && (ok <==> n < o.tries)
      && after.opens == s.opens + (if ok then n + 1 - tried else o.tries - tried)
      && after.table == if ok && w.plainOpens(src, n) then s.table[temp := src] else s.table
    decreases o.tries - tried
  {
    var fedState := Feed(w, s, source, src, tried).0;
    assert fedState.table == s.table;
    if o.hasCheck && !w.checks(src, tried) {
      var table := if w.plainOpens(src, tried) then s.table[temp := src] else s.table;
      assert table - {temp} == s.table;
      if tried + 1 < o.tries {
        PlainRun(w, fedState.(opens := fedState.opens + 1), o, source, src, temp, tried + 1);
      }
    }
  }

  // A plain start succeeds exactly if there are no tries or some attempt passes
  // the check; it then maps the name exactly if the device opened on the first
  // attempt that passed.
  lemma PlainSuccessIff(w: World, s: State, line: Line)
    requires Ready(w, s, line) && Finite(w, s, line)
    requires !NeedsPassphrase(line) && Tested(w, line)
    ensures
      var (after, code) := Handle(w, s, line);
      var o := line.parsed.value;
      var n := FirstPass(w, line.src, o, 0);
      && (code == 0 <==> o.tries == 0 || n < o.tries)
      && (code == 0 ==> (line.dst in after.table <==> o.tries > 0 && w.plainOpens(line.src, n)))
      && (code != 0 ==> after.table == s.table)
  {
    hide PlainAttempts;
    var o, source, temp := line.parsed.value, SourceOfLine(line), Temp(line.dst);
    if o.tries > 0 {
      PlainRun(w, s, o, source, line.src, temp, 0);
    } else {
      NoTries(w, s, o, source, line.src, temp);
    }
  }

  lemma NoTries(w: World, s: State, o: Options, source: KeySource, src: string, temp: string)
    requires o.tries == 0
    ensures PlainAttempts(w, s, o, source, src, temp, 0) == (s, true)
  {
  }

  // So it reports success with nothing mapped exactly if there are no tries, or
  // the first attempt that passes the check did not open the device.
  lemma PlainSuccessWithoutMapping(w: World, s: State, line: Line)
    requires Ready(w, s, line) && Finite(w, s, line)
    requires !NeedsPassphrase(line) && Tested(w, line)
    ensures
      var (after, code) := Handle(w, s, line);
      var o := line.parsed.value;
      var n := FirstPass(w, line.src, o, 0);
      code == 0 && after.table == s.table
      <==> o.tries == 0 || (n < o.tries && !w.plainOpens(line.src, n))
  {
    hide Setup, FirstPass;
    PlainSuccessIff(w, s, line);
    StartMapsFinalNameOnly(w, s, line);
  }

  lemma {:induction false} RetryOpens(w: World, s: State, source: KeySource, src: string, temp: string,
                                      tried: nat, limit: nat)
    requires tried <= limit
    ensures
      var (after, n) := Retry(w, s, source, src, temp, tried, limit);
      && (n.None? ==> after.opens == s.opens + (limit - tried))
      && (n.Some? ==> tried <= n.value < limit && after.opens == s.opens + (n.value + 1 - tried))
    decreases limit - tried
  {
    if tried < limit {
      var (fedState, fed) := Feed(w, s, source, src, tried);
      assert fedState.opens == s.opens;
      if !Accepts(w, src, fed) {
        RetryOpens(w, fedState.(opens := fedState.opens + 1), source, src, temp, tried + 1, limit);
      }
    }
  }

  lemma {:induction false} PlainOpens(w: World, s: State, o: Options, source: KeySource, src: string,
                                      temp: string, tried: nat)
    requires tried <= o.tries
    ensures PlainAttempts(w, s, o, source, src, temp, tried).0.opens <= s.opens + (o.tries - tried)
    decreases o.tries - tried
  {
    if tried < o.tries {
      var fedState := Feed(w, s, source, src, tried).0;
      assert fedState.opens == s.opens;
      var table := if w.plainOpens(src, tried) then fedState.table[temp := src] else fedState.table;
      if o.hasCheck && !w.checks(src, tried) && tried + 1 < o.tries {
        PlainOpens(w, fedState.(opens := fedState.opens + 1, table := table - {temp}), o, source, src,
                   temp, tried + 1);
      }
    }
  }

  // A device is opened at most TRIES times.
  lemma OpensBounded(w: World, s: State, line: Line)
    requires Finite(w, s, line) && line.parsed.Some? && line.parsed.value.tries > 0
    ensures Handle(w, s, line).0.opens <= s.opens + line.parsed.value.tries
  {
    hide Retry, PlainAttempts, Ends;
    if Ready(w, s, line) && Tested(w, line) {
      var o, source, temp := line.parsed.value, SourceOfLine(line), Temp(line.dst);
      if NeedsPassphrase(line) {
        RetryOpens(w, s, source, line.src, temp, 0, o.tries);
      } else {
        PlainOpens(w, s, o, source, line.src, temp, 0);
      }
    }
  }

  // Over a run: nothing is unmapped, and every new mapping is the final name
  // of a line, onto that line's device.
  lemma {:induction false} RunMapsFinalNames(w: World, s: State, lines: seq<Line>)
    requires RunFinite(w, s, lines)
    ensures
      var after := Run(w, s, lines);
      && (forall n :: n in s.table ==> n in after.table && after.table[n] == s.table[n])
      && (forall n :: n in after.table && n !in s.table ==>
            exists line :: line in lines && line.dst == n && line.src == after.table[n])
    decreases |lines|
  {
    hide Handle;
    if lines != [] {
      var next := Handle(w, s, lines[0]).0;
      StartKeepsOrMaps(w, s, lines[0]);
      RunMapsFinalNames(w, next, lines[1..]);
      assert lines[0] in lines;
    }
  }

  // So no temporary mapping survives, unless it is itself the name of a line.
  lemma NoTemporarySurvives(w: World, s: State, lines: seq<Line>, line: Line)
    requires RunFinite(w, s, lines)
    requires Temp(line.dst) !in s.table
    ensures Temp(line.dst) in Run(w, s, lines).table ==>
      exists other :: other in lines && other.dst == Temp(line.dst)
  {
    RunMapsFinalNames(w, s, lines);
  }

  // Without a key script the user is asked on every attempt if the line has no
  // key, and never if it has one; the keyring is not touched.
  lemma {:induction false} PromptsWithoutScript(w: World, s: State, source: KeySource, src: string,
                                                temp: string, tried: nat, limit: nat)
    requires !source.Keyctl?
    ensures
      var after := Retry(w, s, source, src, temp, tried, limit).0;
      && after.keyring == s.keyring
      && after.prompts - s.prompts == if source.Askpass? then after.opens - s.opens else 0
    decreases limit - tried
  {
    if tried < limit {
      var (fedState, fed) := Feed(w, s, source, src, tried);
      if !Accepts(w, src, fed) {
        PromptsWithoutScript(w, fedState.(opens := fedState.opens + 1), source, src, temp, tried + 1, limit);
      }
    }
  }

  lemma SetupAsksIffNoKey(w: World, s: State, line: Line)
    requires Ready(w, s, line) && Finite(w, s, line)
    requires NeedsPassphrase(line) && line.parsed.value.keyScript.NoScript?
    ensures
      var after := Setup(w, s, line).0;
      && after.keyring == s.keyring
      && after.prompts - s.prompts == if line.key == "none" then after.opens - s.opens else 0
  {
    hide Retry, Ends, HasDev;
    var o, source, temp := line.parsed.value, SourceOfLine(line), Temp(line.dst);
    if Tested(w, line) {
      PromptsWithoutScript(w, s, source, line.src, temp, 0, Limit(w, s, source, line.src, temp, o.tries));
    }
  }

  // ---- The passphrase cache ----

  // At every prompt for src the user types p, and keyctl takes it.
  ghost predicate TypesRight(w: World, src: string, p: string) {
    && src in w.slots && p in w.slots[src]
    && forall n: nat :: w.types(src, n) == Typed(Some(p), true, true)
  }

  // The cached passphrase of id, if any, does not open src.
  predicate Stale(w: World, s: State, id: string, src: string) {
    id in s.keyring && !Accepts(w, src, Some(s.keyring[id]))
  }

  // After a success the cache holds the passphrase that opened the device.
  lemma {:induction false} CacheHoldsOpener(w: World, s: State, id: string, src: string, temp: string,
                                            tried: nat, limit: nat)
    requires Retry(w, s, Keyctl(id), src, temp, tried, limit).1.Some?
    ensures
      var after := Retry(w, s, Keyctl(id), src, temp, tried, limit).0;
      id in after.keyring && Accepts(w, src, Some(after.keyring[id]))
    decreases limit - tried
  {
    var (fedState, fed) := Feed(w, s, Keyctl(id), src, tried);
    if !Accepts(w, src, fed) {
      CacheHoldsOpener(w, fedState.(opens := fedState.opens + 1), id, src, temp, tried + 1, limit);
    }
  }

  // An attempt leaves the entries of other identifiers alone. If it gives a
  // passphrase, that is cached; if it gives none though the user has typed, the
  // entry is gone.
  lemma KeyringAfter(w: World, s: State, id: string, src: string, tried: nat)
    ensures
      var (after, fed) := Feed(w, s, Keyctl(id), src, tried);
      && (forall other :: other != id ==>
            (other in after.keyring <==> other in s.keyring)
            && (other in s.keyring ==> after.keyring[other] == s.keyring[other]))
      && (fed.Some? ==> id in after.keyring && after.keyring[id] == fed.value)
      && (fed.None? && w.types(src, tried).text.Some? ==> id !in after.keyring)
      && (w.types(src, tried).text.None? && fed.None? ==> after.keyring == s.keyring)
      && after.table == s.table && after.opens == s.opens
  {
  }

  // With a user who types right, a good or absent entry costs one attempt, a
  // stale one exactly one more; it is asked for unless a good entry is there.
  lemma RightUser(w: World, s: State, id: string, src: string, temp: string, p: string, limit: nat)
    requires TypesRight(w, src, p) && limit > 0
    requires Stale(w, s, id, src) ==> limit > 1
    ensures
      var stale := Stale(w, s, id, src);
      var (after, n) := Retry(w, s, Keyctl(id), src, temp, 0, limit);
      && n == Some(if stale then 1 else 0)
      && after.opens == s.opens + (if stale then 2 else 1)
      && after.prompts == s.prompts + (if id in s.keyring && !stale then 0 else 1)
      && after.keyring == if id in s.keyring && !stale then s.keyring else s.keyring[id := p]
  {
    if Stale(w, s, id, src) {
      var second := s.(opens := s.opens + 1);
      assert Feed(w, s, Keyctl(id), src, 0).0 == s;
      assert Retry(w, s, Keyctl(id), src, temp, 0, limit)
          == Retry(w, second, Keyctl(id), src, temp, 1, limit);
    }
  }

  // Such a user gets in exactly if there is a try left after a stale entry:
  // with tries=1 the stale entry is never asked about, and stays.
  lemma RightUserGetsInIff(w: World, s: State, id: string, src: string, temp: string, p: string, tries: nat)
    requires TypesRight(w, src, p)
    ensures Ends(w, s, Keyctl(id), src, temp, tries)
    ensures
      var (after, n) := Retry(w, s, Keyctl(id), src, temp, 0, Limit(w, s, Keyctl(id), src, temp, tries));
      && (n.Some? <==> !(Stale(w, s, id, src) && tries == 1))
      && (n.None? ==> after.keyring == s.keyring && after.prompts == s.prompts)
  {
    RightUser(w, s, id, src, temp, p, 2);
    var limit := Limit(w, s, Keyctl(id), src, temp, tries);
    if Stale(w, s, id, src) && limit == 1 {
      assert Feed(w, s, Keyctl(id), src, 0).0 == s;
      var second := s.(opens := s.opens + 1);
      assert Retry(w, s, Keyctl(id), src, temp, 0, 1) == Retry(w, second, Keyctl(id), src, temp, 1, 1);
    } else {
      RightUser(w, s, id, src, temp, p, limit);
    }
  }

  // A LUKS line with decrypt_keyctl, on a device there is, whose user knows the
  // passphrase that goes with the identifier.
  ghost predicate Shared(w: World, line: Line, pass: map<string, string>) {
    && line.dst != "" && line.src != "" && line.key != "" && line.opts != ""
    && line.parsed.Some? && line.parsed.value.useLuks && line.parsed.value.keyScript.DecryptKeyctl?
    && (!line.parsed.value.ignore || w.forceStart) && line.keyValid
    && line.src in w.sources && line.src in w.luks
    && line.key in pass && TypesRight(w, line.src, pass[line.key])
  }

  ghost predicate AllShared(w: World, lines: seq<Line>, pass: map<string, string>) {
    forall i :: 0 <= i < |lines| ==> Shared(w, lines[i], pass)
  }

  // Different names, none the temporary name of a later one.
  ghost predicate Distinct(lines: seq<Line>) {
    forall i, j :: 0 <= i < j < |lines| ==> lines[i].dst != lines[j].dst && lines[i].dst != Temp(lines[j].dst)
  }

  ghost predicate Unmapped(s: State, lines: seq<Line>) {
    forall i :: 0 <= i < |lines| ==> lines[i].dst !in s.table && Temp(lines[i].dst) !in s.table
  }

  // What is cached is right.
  ghost predicate Fresh(s: State, pass: map<string, string>) {
    forall id :: id in s.keyring && id in pass ==> s.keyring[id] == pass[id]
  }

  ghost function Ids(lines: seq<Line>): set<string> {
    set line | line in lines :: line.key
  }

  // Starting one such line asks exactly if its identifier is not cached.
  lemma SharedStart(w: World, s: State, line: Line, pass: map<string, string>)
    requires Shared(w, line, pass) && Fresh(s, pass)
    requires line.dst !in s.table && Temp(line.dst) !in s.table
    ensures Finite(w, s, line)
    ensures
      var after := Handle(w, s, line).0;
      && after.prompts == s.prompts + (if line.key in s.keyring then 0 else 1)
      && after.keyring == s.keyring[line.key := pass[line.key]]
      && (after.table == s.table || after.table == s.table[line.dst := line.src])
  {
    hide Retry, PlainAttempts, Ends;
    var o, id, src, temp := line.parsed.value, line.key, line.src, Temp(line.dst);
    assert SourceOfLine(line) == Keyctl(id);
    RightUserGetsInIff(w, s, id, src, temp, pass[id], o.tries);
    var limit := Limit(w, s, Keyctl(id), src, temp, o.tries);
    LimitPositive(w, s, Keyctl(id), src, temp, o.tries);
    RightUser(w, s, id, src, temp, pass[id], limit);
    if id in s.keyring {
      assert s.keyring[id := pass[id]] == s.keyring;
    }
    StartMapsFinalNameOnly(w, s, line);
  }

  lemma LimitPositive(w: World, s: State, source: KeySource, src: string, temp: string, tries: nat)
    requires Ends(w, s, source, src, temp, tries)
    ensures Limit(w, s, source, src, temp, tries) > 0
  {
  }

  // A run over such lines asks once per identifier that was not cached, and
  // ends with the passphrases of all of them in the cache.
  lemma {:induction false} OnePromptPerId(w: World, s: State, lines: seq<Line>, pass: map<string, string>)
    requires AllShared(w, lines, pass) && Distinct(lines) && Unmapped(s, lines) && Fresh(s, pass)
    ensures RunFinite(w, s, lines)
    ensures Run(w, s, lines).prompts == s.prompts + |Ids(lines) - s.keyring.Keys|
    ensures Run(w, s, lines).keyring.Keys == s.keyring.Keys + Ids(lines)
    ensures Fresh(Run(w, s, lines), pass)
    decreases |lines|
  {
    hide Handle, AllShared, Distinct, Unmapped, Finite, Fresh, Ids;
    if lines == [] {
      NoIds(lines);
    } else {
      FirstOfRun(w, s, lines, pass);
      var after := Handle(w, s, lines[0]).0;
      OnePromptPerId(w, after, lines[1..], pass);
      IdsOfRest(lines, s.keyring.Keys, after.keyring.Keys);
    }
  }

  lemma FirstOfRun(w: World, s: State, lines: seq<Line>, pass: map<string, string>)
    requires lines != []
    requires AllShared(w, lines, pass) && Distinct(lines) && Unmapped(s, lines) && Fresh(s, pass)
    ensures Finite(w, s, lines[0])
    ensures
      var after := Handle(w, s, lines[0]).0;
      && AllShared(w, lines[1..], pass) && Distinct(lines[1..]) && Unmapped(after, lines[1..])
      && Fresh(after, pass)
      && after.prompts == s.prompts + (if lines[0].key in s.keyring then 0 else 1)
      && after.keyring.Keys == s.keyring.Keys + {lines[0].key}
  {
    hide Handle, Finite, Distinct, Unmapped;
    KeyIsShared(w, lines[0], pass);
    FirstUnmapped(s, lines);
    SharedStart(w, s, lines[0], pass);
    RestUnmapped(s, Handle(w, s, lines[0]).0, lines);
  }

  lemma FirstUnmapped(s: State, lines: seq<Line>)
    requires lines != [] && Unmapped(s, lines)
    ensures lines[0].dst !in s.table && Temp(lines[0].dst) !in s.table
  {
  }

  lemma RestUnmapped(s: State, after: State, lines: seq<Line>)
    requires lines != [] && Distinct(lines) && Unmapped(s, lines)
    requires after.table == s.table || after.table == s.table[lines[0].dst := lines[0].src]
    ensures Distinct(lines[1..]) && Unmapped(after, lines[1..])
  {
  }

  lemma IdsOfRest(lines: seq<Line>, keys: set<string>, after: set<string>)
    requires lines != [] && after == keys + {lines[0].key}
    ensures keys + Ids(lines) == after + Ids(lines[1..])
    ensures |Ids(lines) - keys| == |Ids(lines[1..]) - after| + (if lines[0].key in keys then 0 else 1)
  {
    var key, rest := lines[0].key, Ids(lines[1..]);
    IdsSplit(lines);
    if key in keys {
      assert Ids(lines) - keys == rest - after;
    } else {
      assert Ids(lines) - keys == (rest - after) + {key};
    }
  }

  lemma NoIds(lines: seq<Line>)
    requires lines == []
    ensures Ids(lines) == {}
  {
  }

  lemma IdsSplit(lines: seq<Line>)
    requires lines != []
    ensures Ids(lines) == {lines[0].key} + Ids(lines[1..])
  {
    assert lines == [lines[0]] + lines[1..];
  }

  lemma KeyIsShared(w: World, line: Line, pass: map<string, string>)
    requires Shared(w, line, pass)
    ensures line.key in pass
  {
  }

  // In particular one prompt for any number of devices with one identifier.
  lemma OnePromptForOneId(w: World, s: State, lines: seq<Line>, pass: map<string, string>, id: string)
    requires AllShared(w, lines, pass) && Distinct(lines) && Unmapped(s, lines)
    requires s.keyring == map[] && lines != [] && forall line :: line in lines ==> line.key == id
    ensures RunFinite(w, s, lines) && Run(w, s, lines).prompts == s.prompts + 1
  {
    OnePromptPerId(w, s, lines, pass);
    assert lines[0] in lines;
    assert Ids(lines) - s.keyring.Keys == {id};
  }

  // ---- Inputs at which the failures above occur ----

  // One device that opens with "new", a user who types it, and a check that
  // passes whatever there is.
  const SAMPLE := World(
    {"/dev/sda1"}, {"/dev/sda1"}, {"/dev/sda1"}, map["/dev/sda1" := {"new"}],
    (src: string, tried: nat) => Typed(Some("new"), true, true),
    (source: KeySource, src: string, tried: nat) => None,
    (src: string, tried: nat) => false,
    (src: string, tried: nat) => true,
    {}, false)

  // A stale entry and a single try: the right user is not asked.
  lemma StaleEntryLocksOut(s: State)
    requires s.keyring == map["cryptkey-pw" := "old"]
    ensures TypesRight(SAMPLE, "/dev/sda1", "new") && Stale(SAMPLE, s, "cryptkey-pw", "/dev/sda1")
    ensures
      var source, temp := Keyctl("cryptkey-pw"), Temp("data");
      Ends(SAMPLE, s, source, "/dev/sda1", temp, 1)
      && Retry(SAMPLE, s, source, "/dev/sda1", temp, 0, Limit(SAMPLE, s, source, "/dev/sda1", temp, 1)).1.None?
  {
    RightUserGetsInIff(SAMPLE, s, "cryptkey-pw", "/dev/sda1", Temp("data"), "new", 1);
  }

  // A plain device that does not open, with a check that passes on attempt 0.
  lemma PlainStartWithoutMapping(s: State)
    requires s.table == map[]
    ensures
      var o := Options(3, false, false, NoScript, true, false, false, false);
      var line := Line("data", "/dev/sda1", "none", "check", Some(o), true);
      && Ready(SAMPLE, s, line) && Finite(SAMPLE, s, line)
      && Handle(SAMPLE, s, line).1 == 0 && Handle(SAMPLE, s, line).0.table == map[]
  {
    var o := Options(3, false, false, NoScript, true, false, false, false);
    PlainSuccessWithoutMapping(SAMPLE, s, Line("data", "/dev/sda1", "none", "check", Some(o), true));
  }
}
