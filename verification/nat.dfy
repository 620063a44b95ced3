/**
 The NAT translator of the packet path: a table mapping each seen flow to its
 translation, a monotonic cursor handing out source ports from 1024 up, and a
 per-port slot vector recording which flow took each port.

 The slot of port `p` is `p - MIN_PORT`; the code as written indexes the slot
 vector with the raw port instead, which `NatAsWritten` models separately.
 */
module NatTranslator {
  import opened Flows

  const MIN_PORT: int := 1024
  const MAX_PORT: int := 65535
  /** One slot per port of the pool `[MIN_PORT, MAX_PORT)`. */
  const POOL_SIZE: int := MAX_PORT - MIN_PORT

  /** The translator's state. `slots[i]` is `Some(f)` once port `MIN_PORT + i`
      has been handed to flow `f`; the idle-time field of a slot is not modelled. */
  datatype NatState = NatState(table: map<Flow, Flow>, nextPort: U16, slots: seq<Option<Flow>>)

  /** The shape every state of the translator has: the cursor within the pool
      (or just past it) and one slot per pool port. */
  predicate WellFormed(s: NatState)
  {
    MIN_PORT <= s.nextPort <= MAX_PORT && |s.slots| == POOL_SIZE
  }

  /** Beyond the shape: exactly the ports below the cursor have been handed out. */
  ghost predicate Valid(s: NatState)
  {
    && WellFormed(s)
    && forall i :: 0 <= i < |s.slots| ==> (s.slots[i].Some? <==> MIN_PORT + i < s.nextPort)
  }

  /** The state `nat` starts with: empty table, cursor at 1024, all slots unused. */
  function Init(): (s: NatState)
    ensures Valid(s) && s.table == map[] && s.nextPort == MIN_PORT
  {
    NatState(map[], MIN_PORT, seq(POOL_SIZE, _ => None))
  }

  /** What one packet does to the translator: the packet as forwarded (its flow
      re-stamped, or untouched), the new state, and the port allocated for it. */
  datatype NatResult = NatResult(pkt: Packet, state: NatState, newPort: Option<U16>)

  /** The flow misses the table and the pool still has a port for it. */
  predicate Allocates(s: NatState, pkt: Packet)
  {
    pkt.Some? && pkt.value !in s.table && s.nextPort < MAX_PORT
  }

  /** The transform closure of `nat`. A hit re-stamps the stored flow; a miss
      takes the next port, stamps the source as `(natIp, port)` and records
      both directions; with the pool exhausted the packet goes out untranslated. */
  function Translate(natIp: U32, s: NatState, pkt: Packet): (r: NatResult)
    requires WellFormed(s)
    ensures WellFormed(r.state)
    ensures pkt.None? ==> r == NatResult(pkt, s, None)
    ensures pkt.Some? && pkt.value in s.table ==>
              r == NatResult(Some(s.table[pkt.value]), s, None)
    ensures pkt.Some? && pkt.value !in s.table && s.nextPort == MAX_PORT ==>
              r == NatResult(pkt, s, None)
    ensures Allocates(s, pkt) ==>
              && r.newPort == Some(s.nextPort)
              && r.state.nextPort == s.nextPort + 1
    ensures Allocates(s, pkt) ==>
              && r.pkt.Some?
              && r.pkt.value.srcIp == natIp && r.pkt.value.srcPort == s.nextPort
              && r.pkt.value.dstIp == pkt.value.dstIp && r.pkt.value.dstPort == pkt.value.dstPort
    ensures Allocates(s, pkt) ==>
              var f, out := pkt.value, r.pkt.value;
              && r.state.table.Keys == s.table.Keys + {f, Reverse(out)}
              && r.state.table[f] == out
              && r.state.table[Reverse(out)] == Reverse(f)
              && forall k :: k in s.table && k != f && k != Reverse(out) ==>
                   r.state.table[k] == s.table[k]
    ensures Allocates(s, pkt) ==>
              && r.state.slots[s.nextPort - MIN_PORT] == pkt
              && forall i :: 0 <= i < |s.slots| && i != s.nextPort - MIN_PORT ==>
                   r.state.slots[i] == s.slots[i]
  {
    match pkt
    case None => NatResult(pkt, s, None)
    case Some(f) =>
      if f in s.table then
        NatResult(Some(s.table[f]), s, None)
      else if s.nextPort < MAX_PORT then
        var port := s.nextPort;
        var outgoing := f.(srcIp := natIp, srcPort := port);
        var table := s.table[f := outgoing][Reverse(outgoing) := Reverse(f)];
        var slots := s.slots[port - MIN_PORT := Some(f)];
        NatResult(Some(outgoing), NatState(table, port + 1, slots), Some(port))
      else
        NatResult(pkt, s, None)
  }

  /** Every step keeps "exactly the ports below the cursor are taken". */
  lemma TranslatePreservesValid(natIp: U32, s: NatState, pkt: Packet)
    requires Valid(s)
    ensures Valid(Translate(natIp, s, pkt).state)
  {
  }

  /** Table entries are never removed and the cursor never moves back. */
  lemma TranslateMonotone(natIp: U32, s: NatState, pkt: Packet)
    requires WellFormed(s)
    ensures var t := Translate(natIp, s, pkt).state;
      && s.table.Keys <= t.table.Keys
      && s.nextPort <= t.nextPort <= s.nextPort + 1
  {
  }

  /** Translating the same flow again gives the same translation and changes
      neither the table nor the cursor. */
  lemma TranslateIdempotent(natIp: U32, s: NatState, pkt: Packet)
    requires WellFormed(s)
    ensures var r := Translate(natIp, s, pkt);
      && (pkt.Some? ==> r.pkt.Some?)
      && (r.pkt.Some? && pkt.Some? && pkt.value in r.state.table ==>
            Translate(natIp, r.state, pkt) == NatResult(r.pkt, r.state, None))
      && (Allocates(s, pkt) ==> pkt.value in r.state.table)
  {
  }

  /** The outcome of translating a sequence of packets: the final state and
      the ports allocated along the way, in order. */
  datatype RunResult = RunResult(state: NatState, ports: seq<U16>)

  function Run(natIp: U32, s: NatState, pkts: seq<Packet>): (r: RunResult)
    requires WellFormed(s)
    ensures WellFormed(r.state)
    ensures Valid(s) ==> Valid(r.state)
    ensures s.table.Keys <= r.state.table.Keys
    decreases |pkts|
  {
    if |pkts| == 0 then
      RunResult(s, [])
    else
      var step := Translate(natIp, s, pkts[0]);
      var rest := Run(natIp, step.state, pkts[1..]);
      var here := if step.newPort.Some? then [step.newPort.value] else [];
      RunResult(rest.state, here + rest.ports)
  }

  /** An entry survives any later traffic when its key cannot be the reply
      key of a later allocation: such keys are addressed to `natIp` at a port
      the cursor has not yet reached. */
  lemma {:induction false} EntryStays(natIp: U32, s: NatState, k: Flow, pkts: seq<Packet>)
    requires WellFormed(s) && k in s.table
    requires k.dstIp != natIp || k.dstPort < s.nextPort
    ensures var t := Run(natIp, s, pkts).state;
      k in t.table && t.table[k] == s.table[k]
    decreases |pkts|
  {
    if |pkts| > 0 {
      EntryStays(natIp, Translate(natIp, s, pkts[0]).state, k, pkts[1..]);
    }
  }

  /** The reply to a translated flow translates back to the reply the original
      endpoint expects, whatever other traffic the translator has seen since. */
  lemma RoundTrip(natIp: U32, s: NatState, f: Flow, later: seq<Packet>)
    requires WellFormed(s) && Allocates(s, Some(f))
    ensures var r := Translate(natIp, s, Some(f));
      && r.pkt.Some?
      && var t := Run(natIp, r.state, later).state;
         Translate(natIp, t, Some(Reverse(r.pkt.value))) == NatResult(Some(Reverse(f)), t, None)
  {
    var r := Translate(natIp, s, Some(f));
    EntryStays(natIp, r.state, Reverse(r.pkt.value), later);
  }

  /** Ports handed out over any run are strictly increasing, hence pairwise
      distinct, and are exactly the ports the cursor passed over. */
  lemma {:induction false} RunAllocatesDistinctPorts(natIp: U32, s: NatState, pkts: seq<Packet>)
    requires WellFormed(s)
    ensures var r := Run(natIp, s, pkts);
      && |r.ports| == r.state.nextPort - s.nextPort
      && (forall i :: 0 <= i < |r.ports| ==> s.nextPort <= r.ports[i] < r.state.nextPort)
      && (forall i, j :: 0 <= i < j < |r.ports| ==> r.ports[i] < r.ports[j])
    decreases |pkts|
  {
    if |pkts| > 0 {
      var step := Translate(natIp, s, pkts[0]);
      RunAllocatesDistinctPorts(natIp, step.state, pkts[1..]);
    }
  }

  /** From the initial state every allocated port lies in `[1024, 65535)`
      and no port is handed out twice. */
  lemma PortsFromInitInPool(natIp: U32, pkts: seq<Packet>)
    ensures var ports := Run(natIp, Init(), pkts).ports;
      && (forall i :: 0 <= i < |ports| ==> MIN_PORT <= ports[i] < MAX_PORT)
      && (forall i, j :: 0 <= i < |ports| && 0 <= j < |ports| && i != j ==> ports[i] != ports[j])
  {
    RunAllocatesDistinctPorts(natIp, Init(), pkts);
    var ports := Run(natIp, Init(), pkts).ports;
    forall i, j | 0 <= i < |ports| && 0 <= j < |ports| && i != j
      ensures ports[i] != ports[j]
    {
      if i < j {
        assert ports[i] < ports[j];
      } else {
        assert ports[j] < ports[i];
      }
    }
  }

  /** Translation never drops a packet: a flow stays a flow, and a packet
      without one passes unchanged. */
  lemma TranslateNeverDrops(natIp: U32, s: NatState, pkt: Packet)
    requires WellFormed(s)
    ensures Translate(natIp, s, pkt).pkt.Some? == pkt.Some?
  {
  }

  /** The reply key of a new allocation can coincide with an existing key.
      With `natIp` 10.0.0.1 and `peer` 93.184.216.34, from the initial state:
      a flow from `peer:5000` towards `natIp:1025` takes port 1024; a second
      flow, from 10.0.0.5:33333 towards `peer:5000`, takes port 1025, and its
      reply key is the first flow, whose entry is replaced. */
  lemma ReplyKeyCanReplaceEntry()
    ensures var natIp, peer := 0x0A00_0001, 0x5DB8_D822;
      var inbound := Flow(peer, natIp, 5000, MIN_PORT + 1);
      var first := Translate(natIp, Init(), Some(inbound));
      var outbound := Flow(0x0A00_0005, peer, 33333, 5000);
      var second := Translate(natIp, first.state, Some(outbound));
      && first.state.table[inbound] == Flow(natIp, natIp, MIN_PORT, MIN_PORT + 1)
      && second.pkt == Some(Flow(natIp, peer, MIN_PORT + 1, 5000))
      && second.state.table[inbound] == Reverse(outbound)
  {
  }
}
