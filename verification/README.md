# ACL + NAT packet path of `acl-distribnat`, modelled in Dafny

This project models the packet-path logic of the `acl-distribnat` network
function (`faas-nfv/acl-distribnat/src/nf.rs`). The function has two parts,
each a small state machine over a flow 4-tuple.

- **ACL engine** (`acl.dfy`, module `AclEngine`). Each rule `Acl` has
  optional source/destination prefix matchers, optional source/destination
  port matchers and an optional "established" matcher. A flow counts as
  established when it or its reverse is in the connection cache. The filter
  walks the rules in order, and the first matching rule decides. A non-drop
  match admits the packet and adds its flow to the cache. If no rule matches,
  the packet is dropped.
- **NAT translator** (`nat.dfy`, module `NatTranslator`). The translator keeps a
  flow-to-flow table, a port cursor starting at 1024 and one slot per pool
  port. A table hit re-stamps the stored flow. A miss takes the cursor's port,
  rewrites the source to `(nat_ip, port)`, and records both `flow ↦ outgoing`
  and `reverse(outgoing) ↦ reverse(flow)`.
- **Flows** (`flows.dfy`, module `Flows`) holds the 4-tuple, its reverse and the
  IPv4 prefix matcher.
- **`acl_nat`** (`pipeline.dfy`, module `AclNat`) runs the two stages in
  sequence with the public address 10.0.0.1.
- **`NatAsWritten`** (`nat_as_written.dfy`) is the NAT step with the slot
  vector indexed the way the code indexes it (see Findings).

All operations are pure functions. Each takes a state record and a packet
and returns the verdict or the re-stamped packet together with the new state.
A packet is `Option<Flow>`: `None` stands for a packet whose flow cannot be
extracted. The closures' captured mutable state (`HashSet`, `HashMap`,
`next_port`, `flow_vec`) becomes explicit `set`, `map`, integer and `seq`
values.

The model follows the code in these places, where a reader might expect
otherwise:
- If a packet has no extractable flow, the ACL filter admits it only when the
  rule list is non-empty. The `None` test sits inside the rule loop
  (nf.rs:104-107), so with an empty list the packet is dropped.
- When the port pool is exhausted, the NAT stage does not drop the packet. It
  forwards the packet untranslated and leaves the table and the cursor as
  they were (nf.rs:147-162).
- Ports are never freed and the table is never cleared. No distributed claim,
  release or resync exists on this path.
- The table is not always symmetric. The reply key of a new allocation can
  coincide with an existing key. The insert then replaces that entry:
  `NatTranslator.ReplyKeyCanReplaceEntry` gives a two-packet example starting
  from the initial state.

## Model

| member | source | states |
|---|---|---|
| Flows.ReverseInvolutive | faas-nfv/acl-distribnat/src/nf.rs:80 | Reversing a flow twice gives the flow back. A flow is its own reverse exactly when its source and destination endpoints are equal. |
| Flows.ReverseInjective | faas-nfv/acl-distribnat/src/nf.rs:155-158 | Two flows have the same reverse only if they are the same flow. |
| Flows.PrefixExtremes | faas-nfv/acl-distribnat/src/nf.rs:74-75 | A /0 prefix accepts every address. A /32 prefix accepts exactly its own address. |
| AclEngine.Matches | faas-nfv/acl-distribnat/src/nf.rs:73-88 | A rule with every matcher unset matches every flow, whatever the cache holds. A match implies each set matcher accepts the flow. When the rule has an established matcher, the flow's established status (flow or reverse in the cache) equals the wanted value. Conversely, a flow that passes the header matchers and agrees with the established matcher (or faces none) matches. |
| AclEngine.Filter | faas-nfv/acl-distribnat/src/nf.rs:102-118 | For a packet with a flow, the verdict is the negated drop flag of the first matching rule. The cache gains the flow exactly when that rule admits it. With no matching rule, including an empty list, the verdict is drop and the cache is unchanged. A packet without a flow is admitted exactly when the list is non-empty. |
| AclEngine.FirstMatchOrNone | faas-nfv/acl-distribnat/src/nf.rs:104-117 | Either no rule matches or a first matching rule exists, and never both. So the filter's contract decides every flow. |
| AclEngine.AdmitIffFirstMatchAdmits | faas-nfv/acl-distribnat/src/nf.rs:104-115 | A flow is admitted if and only if its first matching rule is not a drop rule. |
| AclEngine.CacheGrowsOnlyOnAdmit | faas-nfv/acl-distribnat/src/nf.rs:109-113 | An admitted flow is added to the cache and nothing else changes in it. A drop verdict or a packet without a flow leaves the cache as it was. |
| AclEngine.EstablishedIgnoresDirection | faas-nfv/acl-distribnat/src/nf.rs:79-81 | A flow and its reverse are equally established. A rule that tests only the established matcher gives the same answer for both directions. |
| AclEngine.AdmitEstablishesBothDirections | faas-nfv/acl-distribnat/src/nf.rs:79-113 | Once the filter admits a flow, an `established: Some(true)` rule matches that flow and its reverse in the new cache. |
| AclEngine.NotEstablishedBeforeAdmission | faas-nfv/acl-distribnat/src/nf.rs:79-81 | If neither direction of a flow is in the cache, an `established: Some(true)` rule matches neither direction. |
| AclEngine.EstablishedPersists | faas-nfv/acl-distribnat/src/nf.rs:109-113 | A flow that is established stays established after any further filter decision. |
| AclEngine.UniqueMatchDecides | faas-nfv/acl-distribnat/src/nf.rs:104-115 | If exactly one rule matches a flow, that rule's verdict and cache update apply wherever the rule sits in the list. So reordering rules that do not overlap on the flow changes nothing. |
| NatTranslator.Init | faas-nfv/acl-distribnat/src/nf.rs:128-130 | The translator starts with an empty table, the cursor at 1024 and every slot unused. This state satisfies the slot invariant. |
| NatTranslator.Translate | faas-nfv/acl-distribnat/src/nf.rs:135-164 | A packet without a flow passes unchanged. A hit forwards the stored flow and changes no state. A miss with the cursor below 65535 assigns the old cursor value and advances the cursor by exactly one. It rewrites only the source to (nat_ip, port), gains exactly the keys flow and reverse(outgoing) with values outgoing and reverse(flow), keeps every other key, and records the flow in that port's slot only. A miss with the cursor at 65535 forwards the packet untranslated and changes nothing. |
| NatTranslator.TranslatePreservesValid | faas-nfv/acl-distribnat/src/nf.rs:147-151 | Every step preserves the invariant that exactly the ports below the cursor have a used slot. |
| NatTranslator.TranslateMonotone | faas-nfv/acl-distribnat/src/nf.rs:147-158 | Table keys are never removed. The cursor never moves back and advances by at most one per packet. |
| NatTranslator.EntryStays | faas-nfv/acl-distribnat/src/nf.rs:147-158 | A table entry keeps its value through any later run of packets when its key is not addressed to the NAT address, or is addressed there at a port below the cursor. Only a key addressed to the NAT address at a port the cursor has not yet reached can become the reply key of a later allocation. |
| NatTranslator.RoundTrip | faas-nfv/acl-distribnat/src/nf.rs:152-158 | After a miss on f produces an outgoing flow, and after any later run of packets, translating the reply reverse(outgoing) yields reverse(f) and changes no state. |
| NatTranslator.TranslateIdempotent | faas-nfv/acl-distribnat/src/nf.rs:139-146 | After any step that records f, translating f again yields the same forwarded flow and leaves the table and cursor unchanged. |
| NatTranslator.Run | faas-nfv/acl-distribnat/src/nf.rs:135-164 | Translating a sequence of packets keeps the translator well formed, with the cursor within [1024, 65535] and one slot per pool port. It keeps the slot invariant (exactly the ports below the cursor are used) and never removes a table key. |
| NatTranslator.RunAllocatesDistinctPorts | faas-nfv/acl-distribnat/src/nf.rs:147-149 | Over any run, the allocated ports strictly increase. They lie between the starting and final cursor, and their number equals the distance the cursor moved. |
| NatTranslator.PortsFromInitInPool | faas-nfv/acl-distribnat/src/nf.rs:130-132 | From the initial state, every allocated port lies in [1024, 65535) and no two allocations share a port. |
| NatTranslator.TranslateNeverDrops | faas-nfv/acl-distribnat/src/nf.rs:135-164 | The NAT stage never drops a packet. A flow stays a flow, including when the pool is exhausted. |
| NatTranslator.ReplyKeyCanReplaceEntry | faas-nfv/acl-distribnat/src/nf.rs:155-158 | From the initial state, a flow towards nat_ip:1025 takes port 1024. A later flow towards that flow's source takes port 1025, and its reply entry replaces the first flow's entry. |
| NatAsWritten.TranslateAsWritten | faas-nfv/acl-distribnat/src/nf.rs:147-151 | With the slot vector indexed by the raw port, a step panics exactly on a miss whose cursor is at least 64511 and below 65535. The index that fails is the cursor, which is past the vector's end. In every other case the step forwards the same packet and leaves the same table and cursor as the corrected translator. |
| NatAsWritten.PanicBeforePoolExhausted | faas-nfv/acl-distribnat/src/nf.rs:129-150 | For every cursor value from 64511 to 65534, a miss passes the cursor guard but panics on the slot write. The corrected translator hands out that port and records the flow in its slot. |
| AclNat.Process | faas-nfv/acl-distribnat/src/nf.rs:169-177 | A packet with a flow is forwarded exactly when its first matching rule is not a drop rule. A forwarded packet is the translator's output for it with the NAT address 10.0.0.1, the translator takes that step's state, and the cache gains the packet's flow. A dropped packet leaves the cache and the translator untouched. A packet without a flow is forwarded untouched when rules exist and dropped when there are none. |
| AclNat.FirstConnectionScenario | faas-nfv/acl-distribnat/src/nf.rs:169-177 | Rule `{dst_port: 80}` and flow 10.0.0.5:33333 -> 93.184.216.34:80, starting from the initial state. The flow is admitted and cached and leaves as 10.0.0.1:1024 -> 93.184.216.34:80. The reply key 93.184.216.34:80 -> 10.0.0.1:1024 maps to 93.184.216.34:80 -> 10.0.0.5:33333. |
| AclNat.ReplyToTranslatedFlowNotEstablished | faas-nfv/acl-distribnat/src/nf.rs:169-177 | The filter caches flows before translation. So admitting a newly translated flow does not make its translated reply established in the cache, provided the cache held no flow touching the NAT address. |

## Left out

- The Redis helpers `upload_rule`, `remove_rule` and `fetch_rule`, the `REDIS_KEY` constant and the commented-out `rules_sync_global` (nf.rs:36-70) are left out. They are network I/O to a store and are never called on the packet path. No claim, release or resync logic exists in the code.
- The pipeline plumbing (`parse`, `transform`, `filter`, `compose`) and the MAC address swap (nf.rs:97-100) are framework composition and are left out. `acl_nat` is modelled only as the sequence of the two step functions.
- The filter reads the packet's flow from its IP header (nf.rs:103), and the translator extracts it from the payload (nf.rs:138). `AclNat.Process` assumes both give the same `Option<Flow>` for a packet, because the two e2d2 extractors are not part of this model.
- Flow extraction and re-stamping (`flow()`, `ipv4_extract_flow`, `ipv4_stamp_flow`) belong to the e2d2 library, which is not part of this model. A packet is its extracted `Option<Flow>`, and stamping replaces that flow.
- `Flow::reverse_flow` and `Ipv4Prefix::in_range` are e2d2 library code that is not part of this model. Reverse is modelled as swapping the endpoints, and `in_range` as a comparison of the top `prefix_len` bits. No ACL or NAT property depends on how `in_range` works inside.
- The `time` field of `FlowUsed` is never written, so it is left out. A slot is `Some(flow)` once used, which folds `flow` and `used` together. No idle timeout, reclamation or free list exists in the code.
- FNV hashing and the `HashMap` capacity hint have no effect on the results, so they are left out. The model uses `set<Flow>` and `map<Flow, Flow>`.
- Integer widths are modelled as subset types (`U32`, `U16`). The cursor is a `u16` that stops at 65535, so it never wraps, and no wrap-around needs modelling.

## Findings

| source | as written | input that shows it | evidently intended | confidence | as-written member | corrected member |
|---|---|---|---|---|---|---|
| faas-nfv/acl-distribnat/src/nf.rs:129-150 | The slot vector has one entry per pool port (65535 − 1024 = 64511 entries) but is indexed by the raw port number | A table miss when the cursor is at 64511, after 63487 allocations. The cursor guard (below 65535) passes, but index 64511 is past the end, so the program panics. Every port up to 65534 fails the same way. | Index the slot of port p at p − 1024, so every port the guard admits has a slot | high; not executed | NatAsWritten.PanicBeforePoolExhausted | NatTranslator.Translate |
