/**
 The NAT transform closure with the slot vector indexed as the code writes it:
 by the raw port number rather than by its offset in the pool. The vector has
 one slot per pool port, 64511 in all, so the write goes out of bounds for the
 last 1024 ports of the pool, which the cursor guard still admits. Rust's
 bounds check turns that write into a panic, modelled as the `Panic` outcome.
 */
module NatAsWritten {
  import opened Flows
  import opened NatTranslator

  /** Either the index that failed the bounds check, or a normal step. */
  datatype Outcome = Panic(index: int) | Done(result: NatResult)

  function TranslateAsWritten(natIp: U32, s: NatState, pkt: Packet): (o: Outcome)
    requires WellFormed(s)
    ensures o.Panic? <==> Allocates(s, pkt) && s.nextPort >= POOL_SIZE
    ensures o.Panic? ==> o.index == s.nextPort && o.index >= |s.slots|
    ensures o.Done? ==>
              var r := Translate(natIp, s, pkt);
              && o.result.pkt == r.pkt
              && o.result.newPort == r.newPort
              && o.result.state.table == r.state.table
              && o.result.state.nextPort == r.state.nextPort
  {
    match pkt
    case None => Done(NatResult(pkt, s, None))
    case Some(f) =>
      if f in s.table then
        Done(NatResult(Some(s.table[f]), s, None))
      else if s.nextPort < MAX_PORT then
        var port := s.nextPort;
        if port < |s.slots| then
          var outgoing := f.(srcIp := natIp, srcPort := port);
          var table := s.table[f := outgoing][Reverse(outgoing) := Reverse(f)];
          Done(NatResult(Some(outgoing), NatState(table, port + 1, s.slots[port := Some(f)]), Some(port)))
        else
          Panic(port)
      else
        Done(NatResult(pkt, s, None))
  }

  /** Every port from 64511 to 65534 passes the cursor guard, yet a miss that
      would take it fails the slot write, while the corrected translator hands
      the port out and records the flow in its slot. */
  lemma PanicBeforePoolExhausted(natIp: U32, s: NatState, f: Flow)
    requires WellFormed(s) && f !in s.table
    requires POOL_SIZE <= s.nextPort < MAX_PORT
    ensures TranslateAsWritten(natIp, s, Some(f)) == Panic(s.nextPort)
    ensures var r := Translate(natIp, s, Some(f));
      r.newPort == Some(s.nextPort) && r.state.slots[s.nextPort - MIN_PORT] == Some(f)
  {
  }
}
