// What starting a crypttab line does to the device mapper table and to the
// keyring, as functions of the state before.
module CryptModel {
  import opened Common

  // What the user does at a prompt, and whether keyctl takes the passphrase
  // and its time-out.
  datatype Typed = Typed(text: Option<string>, added: bool, timed: bool)

  datatype KeyScript = NoScript | DecryptKeyctl | OtherScript

  // Where a passphrase comes from.
  datatype KeySource =
    | Keyctl(id: string)
    | Askpass
    | Script(arg: string)
    | Cat(file: string)
    | KeyFile(file: string)

  datatype Options = Options(
    tries: nat, useLuks: bool, useTcrypt: bool, keyScript: KeyScript, hasCheck: bool,
    makeSwap: bool, ignore: bool, loud: bool)

  // A crypttab line; parsed is None when parse_opts rejects the options, and
  // keyValid is the verdict of check_key.
  datatype Line = Line(
    dst: string, src: string, key: string, opts: string, parsed: Option<Options>, keyValid: bool)

  // All the script cannot influence.  slots holds the passphrases that open a
  // LUKS or tcrypt device; a plain device may open or not with anything.
  datatype World = World(
    sources: set<string>, luks: set<string>, prechecked: set<string>, slots: map<string, set<string>>,
    types: (string, nat) -> Typed,
    supply: (KeySource, string, nat) -> Option<string>,
    plainOpens: (string, nat) -> bool,
    checks: (string, nat) -> bool,
    cleanForSwap: set<string>,
    forceStart: bool)

  // table: mapped names and their source devices; keyring: cached passphrases
  // by identifier; opens and prompts count.
  datatype State = State(
    table: map<string, string>, keyring: map<string, string>, opens: nat, prompts: nat)

  function Temp(dst: string): (temp: string)
    ensures temp != dst
  {
    dst + "_unformatted"
  }

  // decrypt_keyctl: the keyring is consulted on the first attempt only.
  function RunKeyctl(w: World, s: State, id: string, src: string, tried: nat): (State, Option<string>) {
    if id !in s.keyring || tried > 0 then
      var asked := s.(prompts := s.prompts + 1);
      match w.types(src, tried)
      case Typed(None, _, _) => (asked, None)
      case Typed(Some(text), added, timed) =>
        if added && timed then (asked.(keyring := s.keyring[id := text]), Some(text))
        else (asked.(keyring := s.keyring - {id}), None)
    else (s, Some(s.keyring[id]))
  }

  // Left of the pipe: what the key source hands to cryptsetup.
  function Feed(w: World, s: State, source: KeySource, src: string, tried: nat): (State, Option<string>) {
    match source
    case Keyctl(id) => RunKeyctl(w, s, id, src, tried)
    case Askpass => (s.(prompts := s.prompts + 1), w.types(src, tried).text)
    case _ => (s, w.supply(source, src, tried))
  }

  predicate Accepts(w: World, src: string, fed: Option<string>) {
    fed.Some? && src in w.slots && fed.value in w.slots[src]
  }

  // The key source of do_luks and do_tcrypt.
  function LuksSource(script: KeyScript, key: string): KeySource {
    match script
    case DecryptKeyctl => Keyctl(key)
    case OtherScript => Script(key)
    case NoScript =>
      if key == "" then Askpass else if HasDev(key) then KeyFile(key) else Cat(key)
  }

  // ... and that of do_noluks.
  function PlainSource(script: KeyScript, key: string): KeySource {
    match script
    case DecryptKeyctl => Keyctl(key)
    case OtherScript => Script(key)
    case NoScript => if key == "" then Askpass else KeyFile(key)
  }

  const DEV := "/dev/"

  // Does ${key%/dev/*} take something off?
  predicate HasDev(key: string) {
    exists i :: 0 <= i <= |key| && DEV <= key[i..]
  }

  // check_key: without a script "none" means no key.
  function KeyOf(script: KeyScript, key: string): string {
    if script.NoScript? && key == "none" then "" else key
  }

  // The attempts to open from number tried up to limit: the state behind them,
  // and the attempt that succeeded.
  function Retry(w: World, s: State, source: KeySource, src: string, temp: string, tried: nat, limit: nat)
    : (State, Option<nat>)
    decreases limit - tried
  {
    if tried >= limit then (s, None)
    else
      var (fedState, fed) := Feed(w, s, source, src, tried);
      var counted := fedState.(opens := fedState.opens + 1);
      if Accepts(w, src, fed) then (counted.(table := counted.table[temp := src]), Some(tried))
      else Retry(w, counted, source, src, temp, tried + 1, limit)
  }

  // With tries == 0 the loop goes on until an attempt succeeds.
  ghost predicate Ends(w: World, s: State, source: KeySource, src: string, temp: string, tries: nat) {
    tries == 0 ==> exists limit: nat :: Retry(w, s, source, src, temp, 0, limit).1.Some?
  }

  ghost function Limit(w: World, s: State, source: KeySource, src: string, temp: string, tries: nat): nat
    requires Ends(w, s, source, src, temp, tries)
  {
    if tries > 0 then tries
    else
      var limit: nat :| Retry(w, s, source, src, temp, 0, limit).1.Some?;
      limit
  }

  // do_luks and do_tcrypt behind their tests of the device.
  ghost function Unlock(w: World, s: State, o: Options, source: KeySource, src: string, temp: string)
    : (State, bool)
    requires Ends(w, s, source, src, temp, o.tries)
  {
    match Retry(w, s, source, src, temp, 0, Limit(w, s, source, src, temp, o.tries))
    case (after, None) => (after, false)
    case (after, Some(n)) =>
      if o.hasCheck && !w.checks(src, n) then (after.(table := after.table - {temp}), false)
      else (after, true)
  }

  // do_noluks behind its test: whether the device opened is not looked at.
  function PlainAttempts(w: World, s: State, o: Options, source: KeySource, src: string, temp: string, tried: nat)
    : (State, bool)
    decreases o.tries - tried
  {
    if tried >= o.tries then (s, true)
    else
      var fedState := Feed(w, s, source, src, tried).0;
      var mapped := fedState.(
        opens := fedState.opens + 1,
        table := if w.plainOpens(src, tried) then fedState.table[temp := src] else fedState.table);
      if !o.hasCheck || w.checks(src, tried) then (mapped, true)
      else
        var removed := mapped.(table := mapped.table - {temp});
        if tried + 1 >= o.tries then (removed, false)
        else PlainAttempts(w, removed, o, source, src, temp, tried + 1)
  }

  // All tests passed, up to that of the target names.
  predicate Ready(w: World, s: State, line: Line) {
    && line.dst != "" && line.src != "" && line.key != "" && line.opts != ""
    && line.parsed.Some?
    && (!line.parsed.value.ignore || w.forceStart)
    && line.keyValid
    && line.src in w.sources
    && Temp(line.dst) !in s.table && line.dst !in s.table
  }

  function SourceOfLine(line: Line): KeySource
    requires line.parsed.Some?
  {
    var o := line.parsed.value;
    var key := KeyOf(o.keyScript, line.key);
    if o.useLuks || o.useTcrypt then LuksSource(o.keyScript, key) else PlainSource(o.keyScript, key)
  }

  // The device is of the kind the line says.
  predicate Tested(w: World, line: Line)
    requires line.parsed.Some?
  {
    if line.parsed.value.useLuks then line.src in w.luks else line.src in w.prechecked
  }

  ghost predicate Finite(w: World, s: State, line: Line) {
    Ready(w, s, line) && Tested(w, line) && (line.parsed.value.useLuks || line.parsed.value.useTcrypt) ==>
      Ends(w, s, SourceOfLine(line), line.src, Temp(line.dst), line.parsed.value.tries)
  }

  ghost function Setup(w: World, s: State, line: Line): (State, bool)
    requires Ready(w, s, line) && Finite(w, s, line)
  {
    var o := line.parsed.value;
    if !Tested(w, line) then (s, false)
    else if o.useLuks || o.useTcrypt then Unlock(w, s, o, SourceOfLine(line), line.src, Temp(line.dst))
    else PlainAttempts(w, s, o, SourceOfLine(line), line.src, Temp(line.dst), 0)
  }

  // dmsetup rename
  function Renamed(table: map<string, string>, from: string, to: string): map<string, string> {
    if from in table && to !in table then (table - {from})[to := table[from]] else table
  }

  // handle_crypttab_line_start: the state behind it and its return code.
  ghost function Handle(w: World, s: State, line: Line): (State, nat)
    requires Finite(w, s, line)
  {
    if !Ready(w, s, line) then (s, EarlyCode(w, line))
    else
      match Setup(w, s, line)
      case (after, false) => (after, 1)
      case (after, true) => (after.(table := Renamed(after.table, Temp(line.dst), line.dst)), 0)
  }

  // The return code when some test says to leave the line alone.
  function EarlyCode(w: World, line: Line): nat {
    if line.dst == "" || line.src == "" || line.key == "" || line.opts == "" then 1
    else if line.parsed.None? then 1
    else if line.parsed.value.ignore && !w.forceStart then 0
    else if !line.keyValid then 1
    else if line.src !in w.sources then if line.parsed.value.loud then 1 else 0
    else 0
  }

  // A run over the lines of crypttab.
  ghost predicate RunFinite(w: World, s: State, lines: seq<Line>)
    decreases |lines|
  {
    lines != [] ==> Finite(w, s, lines[0]) && RunFinite(w, Handle(w, s, lines[0]).0, lines[1..])
  }

  ghost function Run(w: World, s: State, lines: seq<Line>): State
    requires RunFinite(w, s, lines)
    decreases |lines|
  {
    if lines == [] then s else Run(w, Handle(w, s, lines[0]).0, lines[1..])
  }
}
