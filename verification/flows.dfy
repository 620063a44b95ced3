/**
 The flow model shared by the ACL engine and the NAT translator: a directional
 IPv4 4-tuple (the transport protocol is implicit), its reverse direction, and
 the IPv4 prefix matcher used by ACL rules.
 */
module Flows {

  /** The conventional Some/None datatype; a packet whose flow cannot be
      extracted is `None`. */
  datatype Option<T> = None | Some(value: T)

  type U32 = x: int | 0 <= x < 0x1_0000_0000
  type U16 = x: int | 0 <= x < 0x1_0000

  /** A directional flow; equality is over all four fields. */
  datatype Flow = Flow(srcIp: U32, dstIp: U32, srcPort: U16, dstPort: U16)

  /** A packet as the packet path sees it: the flow it carries, if any. */
  type Packet = Option<Flow>

  /** The same connection seen from the other end. */
  function Reverse(f: Flow): Flow
  {
    Flow(f.dstIp, f.srcIp, f.dstPort, f.srcPort)
  }

  lemma ReverseInvolutive(f: Flow)
    ensures Reverse(Reverse(f)) == f
    ensures Reverse(f) == f <==> f.srcIp == f.dstIp && f.srcPort == f.dstPort
  {
  }

  /** Reverse is injective, so "f or its reverse" names one connection. */
  lemma ReverseInjective(f: Flow, g: Flow)
    ensures Reverse(f) == Reverse(g) <==> f == g
  {
    ReverseInvolutive(f);
    ReverseInvolutive(g);
  }

  function Pow2(n: nat): (r: nat)
    ensures r >= 1
  {
    if n == 0 then 1 else 2 * Pow2(n - 1)
  }

  /** A prefix length counts leading bits of a 32-bit address. */
  type PrefixLen = x: int | 0 <= x <= 32

  /** An IPv4 prefix `address/prefixLen`. */
  datatype Ipv4Prefix = Ipv4Prefix(address: U32, prefixLen: PrefixLen)
  {
    /** `ip` agrees with `address` on the top `prefixLen` bits. */
    predicate InRange(ip: U32)
    {
      ip / Pow2(32 - prefixLen) == address / Pow2(32 - prefixLen)
    }
  }

  lemma {:induction false} Pow2Add(a: nat, b: nat)
    ensures Pow2(a + b) == Pow2(a) * Pow2(b)
  {
    if a > 0 {
      Pow2Add(a - 1, b);
    }
  }

  lemma Pow2Is32Bits()
    ensures Pow2(32) == 0x1_0000_0000
  {
    assert Pow2(8) == 256;
    Pow2Add(8, 8);
    Pow2Add(16, 16);
  }

  /** A `/0` prefix accepts every address; a `/32` prefix accepts exactly its own. */
  lemma PrefixExtremes(p: Ipv4Prefix, ip: U32)
    ensures p.prefixLen == 0 ==> p.InRange(ip)
    ensures p.prefixLen == 32 ==> (p.InRange(ip) <==> ip == p.address)
  {
    if p.prefixLen == 0 {
      Pow2Is32Bits();
    }
  }
}
