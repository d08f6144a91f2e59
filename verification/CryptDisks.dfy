// The crypttab machinery step by step: decrypt_keyctl, the retry loops, the
// temporary mapping and its rename to the final name.
module CryptDisks {
  import opened CryptModel
  import opened Common

  class Disks {
    const w: World
    var table: map<string, string>
    var keyring: map<string, string>
    var opens: nat
    var prompts: nat

    constructor (w: World)
      ensures this.w == w && Now() == State(map[], map[], 0, 0)
    {
      this.w := w;
      table, keyring, opens, prompts := map[], map[], 0, 0;
    }

    function Now(): State
      reads this
    {
      State(table, keyring, opens, prompts)
    }

    method RunDecryptKeyctl(id: string, src: string, tried: nat) returns (out: Option<string>)
      modifies this
      ensures (Now(), out) == RunKeyctl(w, old(Now()), id, src, tried)
    {
      var cached := id in keyring;
      if !cached || tried > 0 {
        prompts := prompts + 1;
        var typed := w.types(src, tried);
        if typed.text.None? {
          return None;
        }
        if cached {
          keyring := keyring - {id};
        }
        if !typed.added {
          assert keyring == old(keyring) - {id};
          return None;
        }
        keyring := keyring[id := typed.text.value];
        if !typed.timed {
          keyring := keyring - {id};
          assert keyring == old(keyring) - {id};
          return None;
        }
        assert keyring == old(keyring)[id := typed.text.value];
      }
      out := Some(keyring[id]);
    }

    method FeedKey(source: KeySource, src: string, tried: nat) returns (fed: Option<string>)
      modifies this
      ensures (Now(), fed) == Feed(w, old(Now()), source, src, tried)
    {
      match source
      case Keyctl(id) =>
        fed := RunDecryptKeyctl(id, src, tried);
      case Askpass =>
        prompts := prompts + 1;
        fed := w.types(src, tried).text;
      case _ =>
        fed := w.supply(source, src, tried);
    }

    // cryptsetup luksClose or remove
    method Close(name: string) returns (ok: bool)
      modifies this`table
      ensures table == old(table) - {name} && ok == (name in old(table))
    {
      ok := name in table;
      table := table - {name};
    }

    // do_luks and do_tcrypt from the choice of the key source on.
    method UnlockDevice(o: Options, source: KeySource, src: string, temp: string) returns (ok: bool)
      requires temp !in table && Ends(w, Now(), source, src, temp, o.tries)
      modifies this
      ensures (Now(), ok) == Unlock(w, old(Now()), o, source, src, temp)
    {
      hide Feed;
      var tried := 0;
      ghost var limit := Limit(w, Now(), source, src, temp, o.tries);
      ghost var start := Now();
      while tried < o.tries || o.tries == 0
        invariant o.tries > 0 ==> tried < o.tries
        invariant Retry(w, start, source, src, temp, 0, limit)
               == Retry(w, Now(), source, src, temp, tried, limit)
        decreases limit - tried
      {
        var fed := FeedKey(source, src, tried);
        opens := opens + 1;
        if Accepts(w, src, fed) {
          table := table[temp := src];
          break;
        }
        tried := tried + 1;
        if tried >= o.tries && o.tries != 0 {
          return false;
        }
      }
      if o.hasCheck && !w.checks(src, tried) {
        var _ := Close(temp);
        return false;
      }
      return true;
    }

    method OpenPlain(o: Options, source: KeySource, src: string, temp: string) returns (ok: bool)
      requires temp !in table
      modifies this
      ensures (Now(), ok) == PlainAttempts(w, old(Now()), o, source, src, temp, 0)
    {
      hide Feed;
      var tried := 0;
      ghost var start := Now();
      while tried < o.tries
        invariant PlainAttempts(w, start, o, source, src, temp, 0)
               == PlainAttempts(w, Now(), o, source, src, temp, tried)
      {
        var fed := FeedKey(source, src, tried);
        opens := opens + 1;
        if w.plainOpens(src, tried) {
          table := table[temp := src];
        }
        if !o.hasCheck || w.checks(src, tried) {
          break;
        }
        var _ := Close(temp);
        tried := tried + 1;
        if tried >= o.tries {
          return false;
        }
      }
      return true;
    }

    // The verdict on a device that holds something is passed to do_close, which
    // closes the final name; that is not there yet.
    method DoSwap(line: Line)
      requires line.parsed.Some? && line.dst !in table
      modifies this
      ensures Now() == old(Now())
    {
      if !line.parsed.value.makeSwap || Temp(line.dst) !in table {
        return;
      }
      if line.src !in w.cleanForSwap {
        var _ := Close(line.dst);
      }
    }

    method FinalizeDevice(dst: string)
      modifies this`table
      ensures table == Renamed(old(table), Temp(dst), dst)
    {
      if Temp(dst) in table && dst !in table {
        table := (table - {Temp(dst)})[dst := table[Temp(dst)]];
      }
    }

    method HandleLineStart(line: Line) returns (code: nat)
      requires Finite(w, Now(), line)
      modifies this
      ensures (Now(), code) == Handle(w, old(Now()), line)
    {
      hide Unlock, PlainAttempts, Ends;
      if line.dst == "" {
        return 1;
      } else if line.src == "" || line.key == "" || line.opts == "" {
        return 1;
      }
      if line.parsed.None? {
        return 1;
      }
      var o := line.parsed.value;
      if o.ignore && !w.forceStart {
        return 0;
      }
      if !line.keyValid {
        return 1;
      }
      if line.src !in w.sources {
        return if o.loud then 1 else 0;
      }
      var temp := Temp(line.dst);
      if temp in table || line.dst in table {
        return 0;
      }
      var ok := Tested(w, line);
      if ok {
        if o.useLuks || o.useTcrypt {
          ok := UnlockDevice(o, SourceOfLine(line), line.src, temp);
        } else {
          ok := OpenPlain(o, SourceOfLine(line), line.src, temp);
        }
      }
      assert (Now(), ok) == Setup(w, old(Now()), line);
      if !ok {
        return 1;
      }
      SetupLeavesName(w, old(Now()), line);
      DoSwap(line);
      FinalizeDevice(line.dst);
      return 0;
    }

    // do_start: every line of crypttab.
    method StartAll(lines: seq<Line>)
      requires RunFinite(w, Now(), lines)
      modifies this
      ensures Now() == Run(w, old(Now()), lines)
    {
      hide Handle;
      for i := 0 to |lines|
        invariant RunFinite(w, Now(), lines[i..])
        invariant Run(w, old(Now()), lines) == Run(w, Now(), lines[i..])
      {
        assert lines[i..][1..] == lines[i + 1..];
        var _ := HandleLineStart(lines[i]);
      }
    }
  }

  // Opening touches the temporary name only.
  lemma {:induction false} RetryTable(w: World, s: State, source: KeySource, src: string, temp: string,
                                      tried: nat, limit: nat)
    ensures
      var (after, n) := Retry(w, s, source, src, temp, tried, limit);
      after.table == if n.Some? then s.table[temp := src] else s.table
    decreases limit - tried
  {
    if tried < limit {
      var (fedState, fed) := Feed(w, s, source, src, tried);
      assert fedState.table == s.table;
      if !Accepts(w, src, fed) {
        RetryTable(w, fedState.(opens := fedState.opens + 1), source, src, temp, tried + 1, limit);
      }
    }
  }

  lemma {:induction false} PlainTable(w: World, s: State, o: Options, source: KeySource, src: string,
                                      temp: string, tried: nat)
    requires temp !in s.table
    ensures
      var (after, ok) := PlainAttempts(w, s, o, source, src, temp, tried);
      after.table == s.table || (ok && after.table == s.table[temp := src])
    decreases o.tries - tried
  {
    if tried < o.tries {
      var fedState := Feed(w, s, source, src, tried).0;
      assert fedState.table == s.table;
      var table := if w.plainOpens(src, tried) then s.table[temp := src] else s.table;
      assert table - {temp} == s.table;
      if o.hasCheck && !w.checks(src, tried) && tried + 1 < o.tries {
        PlainTable(w, fedState.(opens := fedState.opens + 1), o, source, src, temp, tried + 1);
      }
    }
  }

  lemma SetupTable(w: World, s: State, line: Line)
    requires Ready(w, s, line) && Finite(w, s, line)
    ensures
      var (after, ok) := Setup(w, s, line);
      && (after.table == s.table || after.table == s.table[Temp(line.dst) := line.src])
      && (!ok ==> after.table == s.table)
      && (ok && (line.parsed.value.useLuks || line.parsed.value.useTcrypt) ==>
            after.table == s.table[Temp(line.dst) := line.src])
  {
    hide Retry, PlainAttempts, Ends;
    var o, source, temp := line.parsed.value, SourceOfLine(line), Temp(line.dst);
    assert s.table[temp := line.src] - {temp} == s.table;
    if Tested(w, line) {
      if o.useLuks || o.useTcrypt {
        RetryTable(w, s, source, line.src, temp, 0, Limit(w, s, source, line.src, temp, o.tries));
      } else {
        PlainTable(w, s, o, source, line.src, temp, 0);
      }
    }
  }

  lemma SetupLeavesName(w: World, s: State, line: Line)
    requires Ready(w, s, line) && Finite(w, s, line)
    ensures line.dst !in Setup(w, s, line).0.table
  {
    SetupTable(w, s, line);
  }
}
