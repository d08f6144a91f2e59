// Finding what to dump: the online CPUs, and the first snapshot channel in
// the kernel's circular lists of sessions and channels.
module LttSearch {
  import opened Bits
  import opened Common
  import LttRing

  // Bit k of a mask word.
  predicate Bit(word: nat, k: nat) {
    word / Pow2(k) % 2 == 1
  }

  // CPU c is bit c % bits of word c / bits.
  predicate Online(words: seq<nat>, bits: nat, cpu: nat)
    requires bits > 0
  {
    0 <= cpu / bits < |words| && Bit(words[cpu / bits], cpu % bits)
  }

  lemma OnlineAt(words: seq<nat>, bits: nat, i: nat, j: nat)
    requires j < bits && i < |words|
    ensures Online(words, bits, LttRing.Span(bits, i) + j) <==> Bit(words[i], j)
  {
    LttRing.SpanIsProduct(bits, i);
    DivModUnique(LttRing.Span(bits, i) + j, bits, i, j);
  }

  lemma BeyondWords(words: seq<nat>, bits: nat, cpu: nat)
    requires bits > 0 && cpu >= LttRing.Span(bits, |words|)
    ensures !Online(words, bits, cpu)
  {
    LttRing.SpanIsProduct(bits, |words|);
    if cpu / bits < |words| {
      MulMonotone(bits, cpu / bits + 1, |words|);
    }
  }

  // Shifting once more.
  lemma ShiftAgain(word: nat, j: nat)
    ensures word / Pow2(j) / 2 == word / Pow2(j + 1)
  {
    var d := Pow2(j);
    var q, r := word / d, word % d;
    assert word == (2 * d) * (q / 2) + ((q % 2) * d + r);
    DivModUnique(word, 2 * d, q / 2, (q % 2) * d + r);
  }

  ghost predicate Increasing(s: seq<nat>) {
    forall i, j :: 0 <= i < j < |s| ==> s[i] < s[j]
  }

  // The CPUs below limit that are online, in order.
  ghost predicate OnlineBelow(words: seq<nat>, bits: nat, cpus: seq<nat>, limit: nat)
    requires bits > 0
  {
    && Increasing(cpus)
    && forall c: nat :: c in cpus <==> c < limit && Online(words, bits, c)
  }

  // The mask words of the target, or None where gdb cannot read them.
  method GetCpuList(mask: Option<seq<nat>>, bits: nat) returns (cpus: seq<nat>)
    requires bits > 0
    ensures mask.None? ==> cpus == [0]
    ensures mask.Some? ==> forall i, j :: 0 <= i < j < |cpus| ==> cpus[i] < cpus[j]
    ensures mask.Some? ==> forall c: nat :: c in cpus <==> Online(mask.value, bits, c)
  {
    if mask.None? {
      return [0];
    }
    hide Online, Bit, OnlineBelow, LttRing.Span, Pow2;
    var words := mask.value;
    var cpu: nat := 0;
    cpus := [];
    NoneBelow(words, bits);
    for i := 0 to |words|
      invariant cpu == LttRing.Span(bits, i)
      invariant OnlineBelow(words, bits, cpus, cpu)
    {
      var word: nat := words[i];
      FirstBit(word);
      for j := 0 to bits
        invariant cpu == LttRing.Span(bits, i) + j
        invariant word == words[i] / Pow2(j)
        invariant OnlineBelow(words, bits, cpus, cpu)
      {
        OnlineAt(words, bits, i, j);
        BitIsLowest(words[i], j);
        BelowNext(words, bits, cpus, cpu);
        if word % 2 != 0 {
          cpus := cpus + [cpu];
        }
        ShiftAgain(words[i], j);
        word := word / 2;
        cpu := cpu + 1;
      }
      NextWord(bits, i);
    }
    AllBelow(words, bits, cpus);
  }

  lemma NoneBelow(words: seq<nat>, bits: nat)
    requires bits > 0
    ensures LttRing.Span(bits, 0) == 0 && OnlineBelow(words, bits, [], 0)
  {
  }

  lemma FirstBit(word: nat)
    ensures word == word / Pow2(0)
  {
  }

  lemma NextWord(bits: nat, i: nat)
    ensures LttRing.Span(bits, i + 1) == LttRing.Span(bits, i) + bits
  {
  }

  lemma BelowNext(words: seq<nat>, bits: nat, cpus: seq<nat>, cpu: nat)
    requires bits > 0 && OnlineBelow(words, bits, cpus, cpu)
    ensures OnlineBelow(words, bits, if Online(words, bits, cpu) then cpus + [cpu] else cpus, cpu + 1)
  {
    hide Online;
    forall i | 0 <= i < |cpus|
      ensures cpus[i] < cpu
    {
      assert cpus[i] in cpus;
    }
  }

  lemma AllBelow(words: seq<nat>, bits: nat, cpus: seq<nat>)
    requires bits > 0 && OnlineBelow(words, bits, cpus, LttRing.Span(bits, |words|))
    ensures Increasing(cpus)
    ensures forall c: nat :: c in cpus <==> Online(words, bits, c)
  {
    hide Online;
    forall c: nat | c >= LttRing.Span(bits, |words|)
      ensures !Online(words, bits, c)
    {
      BeyondWords(words, bits, c);
    }
  }

  lemma BitIsLowest(word: nat, j: nat)
    ensures Bit(word, j) <==> word / Pow2(j) % 2 != 0
  {
  }

  type Address = nat

  datatype Session = Session(active: bool, channels: Address)

  datatype Channel = Channel(enabled: bool, channelType: int, backend: string)

  datatype Memory = Memory(
    next: map<Address, Address>, sessions: map<Address, Session>, channels: map<Address, Channel>)

  const SNAPSHOT_BACKEND := "relay-overwrite-mmap"

  // Element i of a list, the head being behind the last one.
  function Element(head: Address, nodes: seq<Address>, i: nat): Address {
    if i < |nodes| then nodes[i] else head
  }

  // A circular list: following next from the head goes through the nodes and
  // comes back to the head.
  ghost predicate Ring(next: map<Address, Address>, head: Address, nodes: seq<Address>) {
    && head !in nodes
    && head in next && next[head] == Element(head, nodes, 0)
    && forall i :: 0 <= i < |nodes| ==> nodes[i] in next && next[nodes[i]] == Element(head, nodes, i + 1)
  }

  predicate Suitable(chan: Channel, perCpu: int) {
    chan.enabled && chan.channelType == perCpu && chan.backend == SNAPSHOT_BACKEND
  }

  ghost predicate ChannelRing(m: Memory, head: Address, nodes: seq<Address>) {
    Ring(m.next, head, nodes) && forall p :: p in nodes ==> p in m.channels
  }

  // Every session, and for each the ring of its channels.
  ghost predicate SessionRing(m: Memory, head: Address, nodes: seq<Address>, rings: map<Address, seq<Address>>) {
    && Ring(m.next, head, nodes)
    && forall p :: p in nodes ==>
         p in m.sessions && p in rings && ChannelRing(m, m.sessions[p].channels, rings[p])
  }

  function FirstChannel(m: Memory, nodes: seq<Address>, perCpu: int): Option<Address>
    requires forall p :: p in nodes ==> p in m.channels
  {
    if nodes == [] then None
    else if Suitable(m.channels[nodes[0]], perCpu) then Some(nodes[0])
    else FirstChannel(m, nodes[1..], perCpu)
  }

  function FirstPair(m: Memory, nodes: seq<Address>, rings: map<Address, seq<Address>>, perCpu: int)
    : Option<(Address, Address)>
    requires forall p :: p in nodes ==>
      p in m.sessions && p in rings && forall q :: q in rings[p] ==> q in m.channels
  {
    if nodes == [] then None
    else
      var chan := if m.sessions[nodes[0]].active then FirstChannel(m, rings[nodes[0]], perCpu) else None;
      if chan.Some? then Some((nodes[0], chan.value)) else FirstPair(m, nodes[1..], rings, perCpu)
  }

  method FindChannel(m: Memory, head: Address, perCpu: int, ghost nodes: seq<Address>)
    returns (found: Option<Address>)
    requires ChannelRing(m, head, nodes)
    ensures found == FirstChannel(m, nodes, perCpu)
  {
    var p := m.next[head];
    ghost var i := 0;
    while p != head
      invariant 0 <= i <= |nodes| && p == Element(head, nodes, i)
      invariant FirstChannel(m, nodes, perCpu) == FirstChannel(m, nodes[i..], perCpu)
      decreases |nodes| - i
    {
      if Suitable(m.channels[p], perCpu) {
        return Some(p);
      }
      assert nodes[i..][1..] == nodes[i + 1..];
      p := m.next[p];
      i := i + 1;
    }
    return None;
  }

  method FindSessionChannel(m: Memory, head: Address, perCpu: int, ghost nodes: seq<Address>,
                            ghost rings: map<Address, seq<Address>>)
    returns (found: Option<(Address, Address)>)
    requires SessionRing(m, head, nodes, rings)
    ensures found == FirstPair(m, nodes, rings, perCpu)
  {
    var p := m.next[head];
    ghost var i := 0;
    while p != head
      invariant 0 <= i <= |nodes| && p == Element(head, nodes, i)
      invariant FirstPair(m, nodes, rings, perCpu) == FirstPair(m, nodes[i..], rings, perCpu)
      decreases |nodes| - i
    {
      if m.sessions[p].active {
        var chan := FindChannel(m, m.sessions[p].channels, perCpu, rings[p]);
        if chan.Some? {
          return Some((p, chan.value));
        }
      }
      assert nodes[i..][1..] == nodes[i + 1..];
      p := m.next[p];
      i := i + 1;
    }
    return None;
  }

  // Session i is active and its channel j is enabled, per CPU and in snapshot
  // mode.
  ghost predicate Match(m: Memory, nodes: seq<Address>, rings: map<Address, seq<Address>>, perCpu: int,
                        i: nat, j: nat)
  {
    && i < |nodes| && nodes[i] in m.sessions && m.sessions[nodes[i]].active
    && nodes[i] in rings && j < |rings[nodes[i]]|
    && rings[nodes[i]][j] in m.channels
    && m.channels[rings[nodes[i]][j]].enabled && m.channels[rings[nodes[i]][j]].channelType == perCpu
    && m.channels[rings[nodes[i]][j]].backend == "relay-overwrite-mmap"
  }

  // Position (i, j) is the lexicographically first match.
  ghost predicate FirstMatch(m: Memory, nodes: seq<Address>, rings: map<Address, seq<Address>>, perCpu: int,
                             i: nat, j: nat)
  {
    && Match(m, nodes, rings, perCpu, i, j)
    && forall i': nat, j': nat :: Match(m, nodes, rings, perCpu, i', j') ==> i < i' || (i == i' && j <= j')
  }

  lemma {:induction false} FirstChannelIsFirst(m: Memory, nodes: seq<Address>, perCpu: int)
    returns (j: nat)
    requires forall p :: p in nodes ==> p in m.channels
    ensures FirstChannel(m, nodes, perCpu).None? ==>
      j == |nodes| && forall k :: 0 <= k < |nodes| ==> !Suitable(m.channels[nodes[k]], perCpu)
    ensures FirstChannel(m, nodes, perCpu).Some? ==>
      j < |nodes| && FirstChannel(m, nodes, perCpu).value == nodes[j]
      && Suitable(m.channels[nodes[j]], perCpu)
      && forall k :: 0 <= k < j ==> !Suitable(m.channels[nodes[k]], perCpu)
  {
    if nodes == [] || Suitable(m.channels[nodes[0]], perCpu) {
      j := 0;
    } else {
      j := FirstChannelIsFirst(m, nodes[1..], perCpu);
      j := j + 1;
    }
  }

  // The search returns the first pair, and nothing exactly when there is none.
  lemma {:induction false} FirstPairIsFirst(m: Memory, nodes: seq<Address>, rings: map<Address, seq<Address>>,
                                            perCpu: int)
    requires forall p :: p in nodes ==>
      p in m.sessions && p in rings && forall q :: q in rings[p] ==> q in m.channels
    ensures FirstPair(m, nodes, rings, perCpu).None? <==>
      forall i: nat, j: nat :: !Match(m, nodes, rings, perCpu, i, j)
    ensures FirstPair(m, nodes, rings, perCpu).Some? ==>
      exists i: nat, j: nat :: FirstMatch(m, nodes, rings, perCpu, i, j)
        && FirstPair(m, nodes, rings, perCpu).value == (nodes[i], rings[nodes[i]][j])
  {
    if nodes != [] {
      var j := FirstChannelIsFirst(m, rings[nodes[0]], perCpu);
      var rest := nodes[1..];
      forall i: nat, k: nat
        ensures Match(m, nodes, rings, perCpu, i + 1, k) <==> Match(m, rest, rings, perCpu, i, k)
      {
      }
      if m.sessions[nodes[0]].active && FirstChannel(m, rings[nodes[0]], perCpu).Some? {
        assert FirstMatch(m, nodes, rings, perCpu, 0, j);
      } else {
        FirstPairIsFirst(m, rest, rings, perCpu);
        forall i: nat, k: nat | Match(m, nodes, rings, perCpu, i, k)
          ensures i > 0 && Match(m, rest, rings, perCpu, i - 1, k)
        {
        }
        if FirstPair(m, rest, rings, perCpu).Some? {
          var i: nat, k: nat :| FirstMatch(m, rest, rings, perCpu, i, k)
            && FirstPair(m, rest, rings, perCpu).value == (rest[i], rings[rest[i]][k]);
          assert FirstMatch(m, nodes, rings, perCpu, i + 1, k);
        }
      }
    }
  }
}
