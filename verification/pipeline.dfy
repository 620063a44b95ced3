/**
 `acl_nat`: the ACL filter followed by the NAT translator with the public
 address 10.0.0.1. A packet the filter drops never reaches the translator.
 */
module AclNat {
  import opened Flows
  import opened AclEngine
  import opened NatTranslator

  /** 10.0.0.1 as a 32-bit address. */
  const NAT_IP: U32 := 0x0A00_0001

  datatype PipelineState = PipelineState(cache: Cache, translator: NatState)

  /** What leaves the pipeline for one packet. */
  datatype Output = Dropped | Forwarded(pkt: Packet)

  datatype Step = Step(out: Output, state: PipelineState)

  function InitialState(): PipelineState
  {
    PipelineState({}, Init())
  }

  /** One packet through both stages: the filter decides, and only an
      admitted packet reaches the translator. */
  function Process(rules: seq<Acl>, st: PipelineState, pkt: Packet): (r: Step)
    requires WellFormed(st.translator)
    ensures WellFormed(r.state.translator)
    ensures pkt.Some? ==>
              (r.out.Forwarded? <==> exists i :: IsFirstMatch(rules, pkt.value, st.cache, i) && !rules[i].drop)
    ensures r.out.Forwarded? ==>
              var t := Translate(NAT_IP, st.translator, pkt);
              && r.out.pkt == t.pkt
              && r.state.translator == t.state
              && r.state.cache == (if pkt.Some? then st.cache + {pkt.value} else st.cache)
    ensures r.out.Dropped? ==> r.state == st
    ensures r.out.Forwarded? ==> r.out.pkt.Some? == pkt.Some?
    ensures pkt.None? && |rules| > 0 ==> r == Step(Forwarded(None), st)
    ensures pkt.None? && |rules| == 0 ==> r == Step(Dropped, st)
  {
    var v := Filter(rules, pkt, st.cache);
    CacheGrowsOnlyOnAdmit(rules, pkt, st.cache);
    assert pkt.Some? ==>
        (v.admit <==> exists i :: IsFirstMatch(rules, pkt.value, st.cache, i) && !rules[i].drop) by {
      if pkt.Some? {
        AdmitIffFirstMatchAdmits(rules, pkt.value, st.cache);
      }
    }
    if v.admit then
      var t := Translate(NAT_IP, st.translator, pkt);
      Step(Forwarded(t.pkt), PipelineState(v.cache, t.state))
    else
      Step(Dropped, PipelineState(v.cache, st.translator))
  }

  /** The end-to-end example: a rule admitting destination port 80, the flow
      10.0.0.5:33333 -> 93.184.216.34:80 from the initial state. It is admitted
      and cached, leaves as 10.0.0.1:1024 -> 93.184.216.34:80, and the reply
      key 93.184.216.34:80 -> 10.0.0.1:1024 maps back to
      93.184.216.34:80 -> 10.0.0.5:33333. */
  lemma FirstConnectionScenario()
    ensures var host, server := 0x0A00_0005, 0x5DB8_D822;
      var rules := [Acl(None, None, None, Some(80), None, false)];
      var f := Flow(host, server, 33333, 80);
      var r := Process(rules, InitialState(), Some(f));
      && r.out == Forwarded(Some(Flow(NAT_IP, server, 1024, 80)))
      && r.state.cache == {f}
      && r.state.translator.table[Flow(server, NAT_IP, 80, 1024)] == Flow(server, host, 80, 33333)
  {
    var host, server := 0x0A00_0005, 0x5DB8_D822;
    var rules := [Acl(None, None, None, Some(80), None, false)];
    var f := Flow(host, server, 33333, 80);
    assert IsFirstMatch(rules, f, {}, 0);
  }

  /** The filter caches flows as they arrive, before translation, so the reply
      to a translated flow is not established in the cache by that admission. */
  lemma ReplyToTranslatedFlowNotEstablished(rules: seq<Acl>, st: PipelineState, f: Flow)
    requires WellFormed(st.translator)
    requires Allocates(st.translator, Some(f)) && f.srcIp != NAT_IP
    requires forall g :: g in st.cache ==> g.srcIp != NAT_IP && g.dstIp != NAT_IP
    ensures var r := Process(rules, st, Some(f));
      r.out.Forwarded? ==> r.out.pkt.Some? && !Established(Reverse(r.out.pkt.value), r.state.cache)
  {
    CacheGrowsOnlyOnAdmit(rules, Some(f), st.cache);
  }
}
