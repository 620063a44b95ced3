/**
 The ACL engine: rules made of optional matchers, a connection cache of
 admitted flows that answers the "established" matcher, and the ordered,
 first-match-wins filter of the packet path.
 */
module AclEngine {
  import opened Flows

  /** One ACL rule; a `None` matcher accepts anything. */
  datatype Acl = Acl(
    srcIp: Option<Ipv4Prefix>,
    dstIp: Option<Ipv4Prefix>,
    srcPort: Option<U16>,
    dstPort: Option<U16>,
    established: Option<bool>,
    drop: bool)
  {
    /** Every matcher is `None`. */
    predicate IsWildcard()
    {
      srcIp.None? && dstIp.None? && srcPort.None? && dstPort.None? && established.None?
    }
  }

  /** The rule `{established: Some(want)}` with every other matcher unset. */
  function EstablishedRule(want: bool, drop: bool): Acl
  {
    Acl(None, None, None, None, Some(want), drop)
  }

  /** The set of flows admitted so far by a non-drop rule. */
  type Cache = set<Flow>

  /** A flow is established when it or its reverse has been admitted. */
  predicate Established(f: Flow, cache: Cache)
  {
    f in cache || Reverse(f) in cache
  }

  /** The rule's address and port matchers accept `f`. */
  predicate HeaderMatches(acl: Acl, f: Flow)
  {
    && (acl.srcIp.None? || acl.srcIp.value.InRange(f.srcIp))
    && (acl.dstIp.None? || acl.dstIp.value.InRange(f.dstIp))
    && (acl.srcPort.None? || f.srcPort == acl.srcPort.value)
    && (acl.dstPort.None? || f.dstPort == acl.dstPort.value)
  }

  /** `Acl::matches`: the header matchers accept `f` and, when the rule has an
      established matcher, whether `f` is established equals its wanted value. */
  function Matches(acl: Acl, f: Flow, cache: Cache): (r: bool)
    ensures acl.IsWildcard() ==> r
    ensures r ==> HeaderMatches(acl, f)
    ensures r && acl.established.Some? ==> Established(f, cache) == acl.established.value
    ensures HeaderMatches(acl, f) && acl.established.None? ==> r
    ensures (HeaderMatches(acl, f) && acl.established.Some?
             && Established(f, cache) == acl.established.value) ==> r
  {
    if HeaderMatches(acl, f) then
      match acl.established
      case Some(want) =>
        var rev := Reverse(f);
        (f in cache || rev in cache) == want
      case None => true
    else
      false
  }

  /** Rule `i` is the first rule of the list that matches `f`. */
  ghost predicate IsFirstMatch(rules: seq<Acl>, f: Flow, cache: Cache, i: int)
  {
    && 0 <= i < |rules|
    && Matches(rules[i], f, cache)
    && forall j :: 0 <= j < i ==> !Matches(rules[j], f, cache)
  }

  /** No rule of the list matches `f`. */
  ghost predicate NoMatch(rules: seq<Acl>, f: Flow, cache: Cache)
  {
    forall j :: 0 <= j < |rules| ==> !Matches(rules[j], f, cache)
  }

  /** The outcome of the filter: admit or drop, and the cache afterwards. */
  datatype Verdict = Verdict(admit: bool, cache: Cache)

  /** The cache after rule `acl` decided on `f`: only an admitting rule records it. */
  function Record(acl: Acl, f: Flow, cache: Cache): Cache
  {
    if acl.drop then cache else cache + {f}
  }

  lemma FirstMatchOfTail(rules: seq<Acl>, f: Flow, cache: Cache, i: int)
    requires |rules| > 0
    requires !Matches(rules[0], f, cache)
    ensures IsFirstMatch(rules[1..], f, cache, i) <==> IsFirstMatch(rules, f, cache, i + 1)
  {
    if IsFirstMatch(rules, f, cache, i + 1) {
      forall j | 0 <= j < i
        ensures !Matches(rules[1..][j], f, cache)
      {
        assert rules[1..][j] == rules[j + 1];
      }
    }
    if IsFirstMatch(rules[1..], f, cache, i) {
      forall j | 0 <= j < i + 1
        ensures !Matches(rules[j], f, cache)
      {
        if j > 0 {
          assert rules[j] == rules[1..][j - 1];
        }
      }
    }
  }

  /** The filter closure of `acl_match`, walking the rule list in order. The
      check for a missing flow sits inside the loop, so a packet without an
      extractable flow is admitted exactly when the list is non-empty. */
  function Filter(rules: seq<Acl>, pkt: Packet, cache: Cache): (r: Verdict)
    ensures pkt.None? ==> r.admit == (|rules| > 0) && r.cache == cache
    ensures pkt.Some? && NoMatch(rules, pkt.value, cache) ==> !r.admit && r.cache == cache
    ensures pkt.Some? ==> forall i :: IsFirstMatch(rules, pkt.value, cache, i) ==>
              r.admit == !rules[i].drop && r.cache == Record(rules[i], pkt.value, cache)
  {
    if |rules| == 0 then
      Verdict(false, cache)
    else if pkt.None? then
      Verdict(true, cache)
    else if Matches(rules[0], pkt.value, cache) then
      Verdict(!rules[0].drop, Record(rules[0], pkt.value, cache))
    else
      var r := Filter(rules[1..], pkt, cache);
      assert forall i :: IsFirstMatch(rules, pkt.value, cache, i) ==> i > 0;
      assert forall i :: IsFirstMatch(rules, pkt.value, cache, i) ==>
          IsFirstMatch(rules[1..], pkt.value, cache, i - 1) by {
        forall i | IsFirstMatch(rules, pkt.value, cache, i)
          ensures IsFirstMatch(rules[1..], pkt.value, cache, i - 1)
        {
          FirstMatchOfTail(rules, pkt.value, cache, i - 1);
        }
      }
      assert NoMatch(rules, pkt.value, cache) ==> NoMatch(rules[1..], pkt.value, cache);
      r
  }

  /** First match and no match are the only two cases: the filter's
      contract covers every flow. */
  lemma {:induction false} FirstMatchOrNone(rules: seq<Acl>, f: Flow, cache: Cache)
    ensures NoMatch(rules, f, cache) <==> !exists i :: IsFirstMatch(rules, f, cache, i)
  {
    if |rules| > 0 && !Matches(rules[0], f, cache) {
      FirstMatchOrNone(rules[1..], f, cache);
      if !NoMatch(rules[1..], f, cache) {
        var i :| IsFirstMatch(rules[1..], f, cache, i);
        FirstMatchOfTail(rules, f, cache, i);
      } else {
        forall j | 1 <= j < |rules|
          ensures !Matches(rules[j], f, cache)
        {
          assert rules[j] == rules[1..][j - 1];
        }
      }
    } else if |rules| > 0 {
      assert IsFirstMatch(rules, f, cache, 0);
    }
  }

  /** A flow is admitted exactly when its first matching rule is not a drop rule. */
  lemma AdmitIffFirstMatchAdmits(rules: seq<Acl>, f: Flow, cache: Cache)
    ensures Filter(rules, Some(f), cache).admit
            <==> exists i :: IsFirstMatch(rules, f, cache, i) && !rules[i].drop
  {
    FirstMatchOrNone(rules, f, cache);
  }

  /** The cache only changes on an admitting verdict, and then only by adding
      the admitted flow; a drop or a missing flow leaves it as it was. */
  lemma CacheGrowsOnlyOnAdmit(rules: seq<Acl>, pkt: Packet, cache: Cache)
    ensures var r := Filter(rules, pkt, cache);
      && (pkt.Some? && r.admit ==> r.cache == cache + {pkt.value})
      && (pkt.None? || !r.admit ==> r.cache == cache)
  {
    if pkt.Some? {
      FirstMatchOrNone(rules, pkt.value, cache);
    }
  }

  /** Established-ness is the same for a flow and its reverse, so a rule that
      tests only the established matcher cannot tell the two directions apart. */
  lemma EstablishedIgnoresDirection(f: Flow, cache: Cache, want: bool, drop: bool)
    ensures Established(f, cache) == Established(Reverse(f), cache)
    ensures Matches(EstablishedRule(want, drop), f, cache)
            == Matches(EstablishedRule(want, drop), Reverse(f), cache)
  {
    ReverseInvolutive(f);
  }

  /** Once the filter admits `f`, an `established: Some(true)` rule matches
      `f` and its reply direction. */
  lemma AdmitEstablishesBothDirections(rules: seq<Acl>, f: Flow, cache: Cache, drop: bool)
    requires Filter(rules, Some(f), cache).admit
    ensures var c := Filter(rules, Some(f), cache).cache;
      && Matches(EstablishedRule(true, drop), f, c)
      && Matches(EstablishedRule(true, drop), Reverse(f), c)
  {
    CacheGrowsOnlyOnAdmit(rules, Some(f), cache);
    EstablishedIgnoresDirection(f, Filter(rules, Some(f), cache).cache, true, drop);
  }

  /** Before either direction of a connection has been admitted, an
      `established: Some(true)` rule matches neither direction. */
  lemma NotEstablishedBeforeAdmission(f: Flow, cache: Cache, drop: bool)
    requires f !in cache && Reverse(f) !in cache
    ensures !Matches(EstablishedRule(true, drop), f, cache)
    ensures !Matches(EstablishedRule(true, drop), Reverse(f), cache)
  {
    ReverseInvolutive(f);
  }

  /** An established flow stays established whatever the filter decides next. */
  lemma EstablishedPersists(rules: seq<Acl>, pkt: Packet, cache: Cache, g: Flow)
    requires Established(g, cache)
    ensures Established(g, Filter(rules, pkt, cache).cache)
  {
    CacheGrowsOnlyOnAdmit(rules, pkt, cache);
  }

  /** When exactly one rule matches `f`, that rule decides, wherever it sits
      in the list: reordering rules that do not overlap on `f` changes nothing. */
  lemma UniqueMatchDecides(rules: seq<Acl>, f: Flow, cache: Cache, k: int)
    requires 0 <= k < |rules| && Matches(rules[k], f, cache)
    requires forall j :: 0 <= j < |rules| && j != k ==> !Matches(rules[j], f, cache)
    ensures Filter(rules, Some(f), cache) == Verdict(!rules[k].drop, Record(rules[k], f, cache))
  {
    assert IsFirstMatch(rules, f, cache, k);
  }
}
