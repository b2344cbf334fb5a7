/** The netfilter hook: one outgoing packet at a time drives the flow table, and over a
    whole trace every flow's byte count is accounted for. */
module FlowTracker {
  import opened Basics
  import opened FlowHash
  import opened FlowTables

  /** A string of C, without its terminating NUL. */
  type CString = s: string | '\0' !in s

  /** The module's parameters, and the byte order of the host. */
  datatype Config = Config(dev: Option<CString>, port: int, bigEndian: bool)

  /** An outgoing packet: its device, whether it is TCP over IP, and its headers' fields. */
  datatype Packet = Packet(out: Option<CString>, tcp: bool, flow: FlowKey,
                           syn: bool, fin: bool, rst: bool, len: U32)

  const DEVICE_NAME_SIZE := 16

  /** What strncmp looks at. */
  function Clip(s: CString): CString {
    if |s| <= DEVICE_NAME_SIZE then s else s[..DEVICE_NAME_SIZE]
  }

  /** ntohs: a port in the host's byte order. */
  function HostPort(port: bv16, bigEndian: bool): nat {
    WordValue(if bigEndian then port else (port << 8) | (port >> 8))
  }

  predicate Tracked(config: Config, p: Packet) {
    && !(p.out.Some? && config.dev.Some? && Clip(p.out.value) != Clip(config.dev.value))
    && p.tcp
    && (config.port == 0 || HostPort(p.flow.localPort, config.bigEndian) == config.port ||
        HostPort(p.flow.remotePort, config.bigEndian) == config.port)
  }

  function Add32(a: U32, b: U32): U32 {
    (a + b) % 0x1_0000_0000
  }

  /** A packet, and whether memory for a new entry can be had when it is handled. */
  datatype Event = Event(packet: Packet, allocOk: bool)

  /** What the hook does to the table, given whether it looks at the packet. */
  function Handle(m: map<FlowKey, U32>, e: Event): map<FlowKey, U32> {
    var p := e.packet;
    if p.syn && p.flow !in m && e.allocOk then m[p.flow := p.len]
    else if p.flow !in m then m
    else if p.fin || p.rst then m - {p.flow}
    else m[p.flow := Add32(m[p.flow], p.len)]
  }

  function HookStep(config: Config, m: map<FlowKey, U32>, e: Event): map<FlowKey, U32> {
    if Tracked(config, e.packet) then Handle(m, e) else m
  }

  // ---- which packets the hook looks at ----

  /** The character at a position, with the NUL that ends the string and what may follow it as NUL. */
  function CharOrNul(s: CString, i: nat): char {
    if i < |s| then s[i] else '\0'
  }

  ghost predicate SameName(a: CString, b: CString) {
    forall i: nat :: i < 16 ==> CharOrNul(a, i) == CharOrNul(b, i)
  }

  lemma ClipAt(s: CString, i: nat)
    requires i < 16
    ensures i < |Clip(s)| <==> i < |s|
    ensures i < |s| ==> Clip(s)[i] == s[i] == CharOrNul(s, i) != '\0'
  {
    assert i < |s| ==> s[i] in s;
  }

  /** strncmp finds no difference exactly if the names agree at each of 16 positions. */
  lemma ClipsAgree(a: CString, b: CString)
    ensures Clip(a) == Clip(b) <==> SameName(a, b)
  {
    if SameName(a, b) {
      if |Clip(a)| < |Clip(b)| {
        ClipAt(a, |Clip(a)|);
        ClipAt(b, |Clip(a)|);
      } else if |Clip(b)| < |Clip(a)| {
        ClipAt(a, |Clip(b)|);
        ClipAt(b, |Clip(b)|);
      }
      forall i: nat | i < |Clip(a)| == |Clip(b)| ensures Clip(a)[i] == Clip(b)[i] {
        ClipAt(a, i);
        ClipAt(b, i);
      }
    } else {
      var i: nat :| i < 16 && CharOrNul(a, i) != CharOrNul(b, i);
      ClipAt(a, i);
      ClipAt(b, i);
    }
  }

  /** Two bytes in network order. */
  function NetworkValue(bytes: seq<bv8>): nat
    requires |bytes| == 2
  {
    256 * bytes[0] as nat + bytes[1] as nat
  }

  /** On either host a port is what its two bytes in memory say in network order. */
  lemma HostPortIs(port: bv16, bigEndian: bool)
    ensures HostPort(port, bigEndian) == NetworkValue(HalfwordBytes(port, bigEndian))
  {
    PairedValue(Crc16.HighByte(port), Crc16.LowByte(port));
    PairedValue(Crc16.LowByte(port), Crc16.HighByte(port));
    HalvesMakeWord(port);
    SwappedHalves(port);
  }

  /** A port of the packet's as sent. */
  function SentPort(config: Config, port: bv16): nat {
    NetworkValue(HalfwordBytes(port, config.bigEndian))
  }

  /** The packets that the hook looks at, by their own fields: TCP, by the given device if both are
      known, and from or to the given port if there is one. */
  ghost predicate OfInterest(config: Config, p: Packet) {
    && p.tcp
    && (p.out.Some? && config.dev.Some? ==> SameName(p.out.value, config.dev.value))
    && (config.port == 0 || SentPort(config, p.flow.localPort) == config.port ||
        SentPort(config, p.flow.remotePort) == config.port)
  }

  lemma TrackedIff(config: Config, p: Packet)
    ensures Tracked(config, p) <==> OfInterest(config, p)
  {
    if p.out.Some? && config.dev.Some? {
      ClipsAgree(p.out.value, config.dev.value);
    }
    HostPortIs(p.flow.localPort, config.bigEndian);
    HostPortIs(p.flow.remotePort, config.bigEndian);
  }

  /** Of these packets a SYN enters its flow, a FIN or RST removes it, and any other is added to its count. */
  ghost predicate EntryEffect(m: map<FlowKey, U32>, e: Event, m': map<FlowKey, U32>) {
    var p := e.packet;
    if p.flow !in m then m' == if p.syn && e.allocOk then m[p.flow := p.len] else m
    else if p.fin || p.rst then m' == m - {p.flow}
    else m' == m[p.flow := (m[p.flow] + p.len) % 0x1_0000_0000]
  }

  lemma HandleIs(m: map<FlowKey, U32>, e: Event)
    ensures EntryEffect(m, e, Handle(m, e))
  {
  }

  /** What the hook does, in terms of the packet's own fields; other packets change nothing. */
  ghost predicate HookEffect(config: Config, m: map<FlowKey, U32>, e: Event, m': map<FlowKey, U32>) {
    if OfInterest(config, e.packet) then EntryEffect(m, e, m') else m' == m
  }

  lemma HookStepIs(config: Config, m: map<FlowKey, U32>, e: Event)
    ensures HookEffect(config, m, e, HookStep(config, m, e))
  {
    TrackedIff(config, e.packet);
    HandleIs(m, e);
  }

  method HookFuncOut(table: FlowTable, config: Config, e: Event)
    requires table.Valid() && table.lists != null
    modifies table, table.lists, table.entries.Values
    ensures table.Valid() && table.lists == old(table.lists) && table.bits == old(table.bits)
    ensures table.Contents() == HookStep(config, old(table.Contents()), e)
    ensures HookEffect(config, old(table.Contents()), e, table.Contents())
  {
    HookStepIs(config, table.Contents(), e);
    if Tracked(config, e.packet) {
      HandlePacket(table, e);
    }
  }

  method HandlePacket(table: FlowTable, e: Event)
    requires table.Valid() && table.lists != null
    modifies table, table.lists, table.entries.Values
    ensures table.Valid() && table.lists == old(table.lists) && table.bits == old(table.bits)
    ensures table.Contents() == Handle(old(table.Contents()), e)
  {
    var p := e.packet;
    var done := false;
    if p.syn {
      done := table.InsertTable(p.flow, p.len, e.allocOk);
    }
    if !done {
      NotInserted(table, p);
    }
  }

  /** The hook after insert_table failed or was not called. */
  method NotInserted(table: FlowTable, p: Packet)
    requires table.Valid() && table.lists != null
    modifies table, table.lists, table.entries.Values
    ensures table.Valid() && table.lists == old(table.lists) && table.bits == old(table.bits)
    ensures table.Contents() == var m := old(table.Contents());
                                if p.flow !in m then m
                                else if p.fin || p.rst then m - {p.flow}
                                else m[p.flow := Add32(m[p.flow], p.len)]
  {
    var done := false;
    if p.fin || p.rst {
      done := table.DeleteTable(p.flow);
    }
    if !done {
      CountPacket(table, p.flow, p.len);
    }
  }

  /** Adds to the flow's count if the flow has an entry. */
  method CountPacket(table: FlowTable, flow: FlowKey, len: U32)
    requires table.Valid()
    modifies table.entries.Values
    ensures table.Valid()
    ensures table.Contents() == var m := old(table.Contents());
                                if flow in m then m[flow := Add32(m[flow], len)] else m
  {
    var entry := table.SearchTable(flow);
    if entry != null {
      assert table.Contents()[flow] == entry.bytesSent;
      AddBytes(table, entry, flow, len);
    }
  }

  /** Updates an entry of the table in place. */
  method AddBytes(table: FlowTable, entry: FlowEntry, flow: FlowKey, len: U32)
    requires table.Valid() && flow in table.entries && table.entries[flow] == entry
    modifies entry
    ensures table.Valid()
    ensures table.Contents() == old(table.Contents())[flow := Add32(old(entry.bytesSent), len)]
  {
    table.EntryKeys();
    entry.bytesSent := (entry.bytesSent + len) % 0x1_0000_0000;
    table.ContentsCounted(flow);
  }

  // ---- whole traces ----

  function Run(config: Config, m: map<FlowKey, U32>, trace: seq<Event>): map<FlowKey, U32> {
    if trace == [] then m
    else HookStep(config, Run(config, m, trace[..|trace| - 1]), trace[|trace| - 1])
  }

  function Only(m: map<FlowKey, U32>, f: FlowKey): map<FlowKey, U32> {
    if f in m then map[f := m[f]] else map[]
  }

  function PacketsOf(f: FlowKey, trace: seq<Event>): seq<Event> {
    if trace == [] then []
    else
      var front := PacketsOf(f, trace[..|trace| - 1]);
      if trace[|trace| - 1].packet.flow == f then front + [trace[|trace| - 1]] else front
  }

  /** Flows do not disturb each other: running only f's packets gives f's part of the table. */
  lemma {:induction false} FlowsAreIsolated(config: Config, m: map<FlowKey, U32>, trace: seq<Event>, f: FlowKey)
    ensures Run(config, Only(m, f), PacketsOf(f, trace)) == Only(Run(config, m, trace), f)
    decreases |trace|
  {
    if trace != [] {
      var front, e := trace[..|trace| - 1], trace[|trace| - 1];
      FlowsAreIsolated(config, m, front, f);
      var before := Run(config, m, front);
      if e.packet.flow == f {
        var mine := PacketsOf(f, front);
        assert (mine + [e])[..|mine|] == mine;
        assert HookStep(config, Only(before, f), e) == Only(HookStep(config, before, e), f);
      } else {
        assert Only(HookStep(config, before, e), f) == Only(before, f);
      }
    }
  }

  /** Bytes of f's tracked packets, each header and payload counted as skb->len. */
  function Bytes(config: Config, trace: seq<Event>, f: FlowKey): nat {
    if trace == [] then 0
    else
      var e := trace[|trace| - 1];
      Bytes(config, trace[..|trace| - 1], f) +
      (if Tracked(config, e.packet) && e.packet.flow == f then e.packet.len else 0)
  }

  /** The packet at position j enters f into the table, and f stays in it from then on. */
  ghost predicate InsertedAt(config: Config, trace: seq<Event>, f: FlowKey, j: nat)
    requires j < |trace|
  {
    && Tracked(config, trace[j].packet) && trace[j].packet.flow == f
    && trace[j].packet.syn && trace[j].allocOk
    && f !in Run(config, map[], trace[..j])
    && forall i :: j < i <= |trace| ==> f in Run(config, map[], trace[..i])
  }

  lemma LastOfSuffix(trace: seq<Event>, j: nat, n: nat)
    requires j < n == |trace| - 1
    ensures trace[j..][..n - j] == trace[..n][j..] && trace[j..][n - j] == trace[n]
  {
  }

  /** One more packet of any flow, while f stays in the table. */
  lemma AccountOneMore(config: Config, trace: seq<Event>, f: FlowKey, j: nat)
    requires trace != [] && f in Run(config, map[], trace)
    requires j < |trace| - 1 && InsertedAt(config, trace[..|trace| - 1], f, j)
    requires f in Run(config, map[], trace[..|trace| - 1])
    requires Run(config, map[], trace[..|trace| - 1])[f] ==
             Bytes(config, trace[..|trace| - 1][j..], f) % 0x1_0000_0000
    ensures InsertedAt(config, trace, f, j)
    ensures Run(config, map[], trace)[f] == Bytes(config, trace[j..], f) % 0x1_0000_0000
  {
    var n := |trace| - 1;
    var front, e := trace[..n], trace[n];
    LastOfSuffix(trace, j, n);
    assert front[..j] == trace[..j];
    forall i | j < i <= |trace| ensures f in Run(config, map[], trace[..i]) {
      if i <= n {
        assert front[..i] == trace[..i];
      } else {
        assert trace[..i] == trace;
      }
    }
    AddModulo(Bytes(config, front[j..], f), e.packet.len);
  }

  lemma AccountInsertion(config: Config, trace: seq<Event>, f: FlowKey)
    requires trace != [] && f in Run(config, map[], trace)
    requires f !in Run(config, map[], trace[..|trace| - 1])
    ensures InsertedAt(config, trace, f, |trace| - 1)
    ensures Run(config, map[], trace)[f] == Bytes(config, trace[|trace| - 1..], f) % 0x1_0000_0000
  {
    var n := |trace| - 1;
    assert trace[n..] == [trace[n]] && trace[n..][..0] == [];
    assert trace[..n + 1] == trace;
  }

  /** A flow that is in the table after a trace holds the sum, modulo 2^32, of the lengths of
      its packets from the one that inserted it onward. */
  lemma {:induction false} BytesAreAccounted(config: Config, trace: seq<Event>, f: FlowKey) returns (j: nat)
    requires f in Run(config, map[], trace)
    ensures j < |trace| && InsertedAt(config, trace, f, j)
    ensures Run(config, map[], trace)[f] == Bytes(config, trace[j..], f) % 0x1_0000_0000
    decreases |trace|
  {
    if f in Run(config, map[], trace[..|trace| - 1]) {
      j := BytesAreAccounted(config, trace[..|trace| - 1], f);
      AccountOneMore(config, trace, f, j);
    } else {
      j := |trace| - 1;
      AccountInsertion(config, trace, f);
    }
  }

  predicate PacketOf(config: Config, e: Event, f: FlowKey) {
    Tracked(config, e.packet) && e.packet.flow == f
  }

  /** The packet at position j enters f into the table, and none of f's later ones ends the flow. */
  ghost predicate Opens(config: Config, trace: seq<Event>, f: FlowKey, j: nat)
    requires j < |trace|
  {
    && PacketOf(config, trace[j], f) && trace[j].packet.syn && trace[j].allocOk
    && f !in Run(config, map[], trace[..j])
    && forall i :: j < i < |trace| && PacketOf(config, trace[i], f) ==> !trace[i].packet.fin && !trace[i].packet.rst
  }

  ghost predicate Opened(config: Config, trace: seq<Event>, f: FlowKey) {
    exists j :: 0 <= j < |trace| && Opens(config, trace, f, j)
  }

  lemma OpenedBefore(config: Config, trace: seq<Event>, f: FlowKey, j: nat)
    requires j < |trace| - 1
    ensures var n := |trace| - 1;
            Opens(config, trace, f, j) <==>
              Opens(config, trace[..n], f, j) &&
              (PacketOf(config, trace[n], f) ==> !trace[n].packet.fin && !trace[n].packet.rst)
  {
    var front := trace[..|trace| - 1];
    assert front[..j] == trace[..j];
    assert forall i :: 0 <= i < |front| ==> front[i] == trace[i];
  }

  /** A flow is in the table exactly from a SYN that entered it until its next FIN or RST. */
  lemma {:induction false} PresentUntilFinOrRst(config: Config, trace: seq<Event>, f: FlowKey)
    ensures f in Run(config, map[], trace) <==> Opened(config, trace, f)
    decreases |trace|
  {
    if trace != [] {
      var n := |trace| - 1;
      var front, e := trace[..n], trace[n];
      PresentUntilFinOrRst(config, front, f);
      forall j | 0 <= j < n
        ensures Opens(config, trace, f, j) <==>
                  Opens(config, front, f, j) && (PacketOf(config, e, f) ==> !e.packet.fin && !e.packet.rst)
      {
        OpenedBefore(config, trace, f, j);
      }
      OneMorePacket(config, trace, f);
    }
  }

  /** The last packet opens the flow, ends it, or leaves it as it was. */
  lemma OneMorePacket(config: Config, trace: seq<Event>, f: FlowKey)
    requires trace != []
    ensures var n := |trace| - 1;
            var e := trace[n];
            var was := f in Run(config, map[], trace[..n]);
            && (f in Run(config, map[], trace) <==>
                  if PacketOf(config, e, f) then (if was then !e.packet.fin && !e.packet.rst else e.packet.syn && e.allocOk)
                  else was)
            && (Opens(config, trace, f, n) <==> PacketOf(config, e, f) && e.packet.syn && e.allocOk && !was)
  {
  }

  lemma AddModulo(a: nat, b: nat)
    ensures (a % 0x1_0000_0000 + b) % 0x1_0000_0000 == (a + b) % 0x1_0000_0000
  {
  }
}
