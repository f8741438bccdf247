# NAT lease manager (layer 4)

This project models the NAT mapping manager of a MidoNet virtual router. The
manager is `NatMapping`, implemented by `NatLeaseManager`. It keeps four
lookup tables:

- SNAT forward and SNAT reverse (source translation);
- DNAT forward and DNAT reverse (destination translation).

Each table is keyed by a flow's 5-tuple `(protocol, nwSrc, tpSrc, nwDst, tpDst)`
and holds an address/port pair (`NwTpPair`). Two allocators each install a
forward binding and its reverse binding together:

- `allocateSnat` draws a free source address and port from a set of
  `NatTarget` pools (`nwStart..nwEnd` × `tpStart..tpEnd`);
- `allocateDnat` picks a destination address from a pool and uses the pool's
  first port.

Four lookups return the binding, or no mapping. The implementation class is
not part of this model. Its behaviour is the contract that
`TestNatLeaseManager.java` asserts.

Layout:

- `nat_types.dfy` (module `NatTypes`): addresses of either family as unsigned
  numbers, with the family-respecting order behind `IPv4Addr.$less$eq`; Java
  `short` and `byte` as bounded integers; `ToShort` for the `(short)` casts;
  `NwTpPair`, `NatTarget`, `FlowKey`; the candidate endpoints that one draw of
  the random source proposes from a target.
- `nat_tables.dfy` (modules `Counting` and `NatTables`): the forward/reverse
  table pair and the invariant `Paired` (every forward binding has its mirror
  image in the reverse table, and the other way round). Lemmas show that
  committing and removing a binding keep the invariant, and bound how many
  source translations one address can carry.
- `nat_lease_manager.dfy` (module `Layer4`): class `NatLeaseManager`, with the
  four tables as `map` fields, its lookups, its allocators (loops over the
  targets and the draws) and lease expiry.
- `test_nat_lease_manager.dfy` (module `TestNatLeaseManager`): the five unit
  tests and the helpers they share, as client methods. Each proves, for every
  outcome of the random source, the assertions about lookups and translated
  endpoints, and counts only the allocations that succeed. The ping and DNAT
  scenarios prove that every allocation succeeds. The SNAT scenario with
  port ranges does not prove the test's bound on failed allocations (see
  "## Left out").

The random source is a parameter. A `Draw` carries two random numbers. A
target turns them into a candidate `start + pick % width` for the address,
and for the port too under SNAT. `SnatCandidateCovers` and
`DnatCandidateCovers` show that every endpoint of a target can be drawn.
`AllocateSnat` tries every draw on one target before it moves to the next. The
order of the targets is an arbitrary choice (`:|`), as the iteration order
of a Java `HashSet` is.

ICMP identifier: one could treat the identifier like any other port and
translate a ping to a port of the target (100 for the first ping target).
The test instead looks up the reverse binding with the target's address and
the original identifier (TestNatLeaseManager.java lines 169-171), so the
model follows the test: `SnatFits` keeps an ICMP identifier untranslated,
and the address still comes from the target.

DNAT collisions are the model's own choice; the tests never show a failing
`allocateDnat`. The reverse key holds the client's address and port, so two
bindings of one client to the same translated endpoint would share a reverse
key. `AllocateDnat` therefore checks that key as SNAT does, and reports no
mapping when every candidate collides. It provably never fails for a client
with no destination binding yet, which covers every flow the tests make.
Allocation that always succeeds, even for a returning client, would need
reverse tables that hold several bindings per key; that is not modelled.

## Model

| member | source | states |
|---|---|---|
| NatTypes.ToShort | midolman/src/test/java/org/midonet/midolman/layer4/TestNatLeaseManager.java:201 | the `(short)` cast keeps the value modulo 2^16, and an in-range value unchanged |
| NatTypes.AddrLeOrder | midolman/src/test/java/org/midonet/midolman/layer4/TestNatLeaseManager.java:262-265 | the address comparison `$less$eq` is reflexive, antisymmetric, transitive and total within a family, and never holds across families |
| NatTypes.NatTargetV4 | midolman/src/test/java/org/midonet/midolman/layer4/TestNatLeaseManager.java:128-129 | the `NatTarget(int, int, short, short)` constructor builds an IPv4 pool with the given bounds |
| NatTypes.SnatCandidate | midolman/src/test/java/org/midonet/midolman/layer4/TestNatLeaseManager.java:214-217 | a drawn source translation has an address of the target, and a port of the target's range (an ICMP identifier unchanged) |
| NatTypes.DnatCandidate | midolman/src/test/java/org/midonet/midolman/layer4/TestNatLeaseManager.java:262-266 | a drawn destination translation has an address of the target's range and the target's first port |
| NatTypes.SnatCandidateCovers | midolman/src/test/java/org/midonet/midolman/layer4/TestNatLeaseManager.java:178-185 | every address/port of a target is the candidate of some draw |
| NatTypes.DnatCandidateCovers | midolman/src/test/java/org/midonet/midolman/layer4/TestNatLeaseManager.java:232-241 | every address of a target's range, with its first port, is the candidate of some draw |
| NatTables.Rebind | midolman/src/test/java/org/midonet/midolman/layer4/TestNatLeaseManager.java:220-223 | the reverse key carries the translated endpoint and the same protocol and untranslated endpoint |
| NatTables.RebindRoundTrip | midolman/src/test/java/org/midonet/midolman/layer4/TestNatLeaseManager.java:218-223 | rebinding a reverse key to the original endpoint gives back the original flow key |
| NatTables.ReverseKeyInjective | midolman/src/test/java/org/midonet/midolman/layer4/TestNatLeaseManager.java:220-223 | two flows of mirrored tables never share a reverse key |
| NatTables.CommitPreservesPaired | midolman/src/test/java/org/midonet/midolman/layer4/TestNatLeaseManager.java:205-223 | installing a binding whose forward and reverse keys are free keeps the tables mirror images |
| NatTables.RemovePreservesPaired | midolman/src/test/java/org/midonet/midolman/layer4/TestNatLeaseManager.java:101-106 | removing a binding together with its reverse binding keeps the tables mirror images |
| NatTables.MirrorSizeBound | midolman/src/test/java/org/midonet/midolman/layer4/TestNatLeaseManager.java:167-171 | a table mirrored into another has no more bindings than it |
| NatTables.PairedSameSize | midolman/src/test/java/org/midonet/midolman/layer4/TestNatLeaseManager.java:167-171 | the forward and reverse tables hold equally many bindings |
| NatTables.SnatCapacity | midolman/src/test/java/org/midonet/midolman/layer4/TestNatLeaseManager.java:197-212 | towards one destination, one address with ports `lo..hi` carries at most `hi - lo + 1` source translations |
| NatTables.NewClientNeverCollides | midolman/src/test/java/org/midonet/midolman/layer4/TestNatLeaseManager.java:251-255 | a client with no destination binding collides with no reverse key, whatever the endpoint |
| Layer4.NatLeaseManager.constructor | midolman/src/test/java/org/midonet/midolman/layer4/TestNatLeaseManager.java:105-106 | a new manager has four empty, consistent tables |
| Layer4.NatLeaseManager.LookupSnatFwd | midolman/src/test/java/org/midonet/midolman/layer4/TestNatLeaseManager.java:157-159 | a result exactly when the flow has a binding; a reverse lookup with the result gives the original source |
| Layer4.NatLeaseManager.LookupSnatRev | midolman/src/test/java/org/midonet/midolman/layer4/TestNatLeaseManager.java:220-223 | a result exactly when the translated flow has a binding; a forward lookup with the result gives the translated source |
| Layer4.NatLeaseManager.LookupDnatFwd | midolman/src/test/java/org/midonet/midolman/layer4/TestNatLeaseManager.java:256-258 | a result exactly when the flow has a binding; a reverse lookup with the result gives the original destination |
| Layer4.NatLeaseManager.LookupDnatRev | midolman/src/test/java/org/midonet/midolman/layer4/TestNatLeaseManager.java:269-272 | a result exactly when the translated flow has a binding; a forward lookup with the result gives the translated destination |
| Layer4.NatLeaseManager.AllocateSnat | midolman/src/test/java/org/midonet/midolman/layer4/TestNatLeaseManager.java:205-223 | an existing binding is returned; a new one fits a target, had a free reverse key and is installed in both tables; no mapping only when every candidate collided, with nothing changed |
| Layer4.NatLeaseManager.AllocateDnat | midolman/src/test/java/org/midonet/midolman/layer4/TestNatLeaseManager.java:259-272 | as for SNAT, with a destination from a target; never fails for a new client when there is a target |
| Layer4.NatLeaseManager.ExpireSnat | midolman/src/test/java/org/midonet/midolman/layer4/TestNatLeaseManager.java:101-106 | expiry removes the forward binding and its reverse binding and nothing else, freeing the translated endpoint |
| Layer4.NatLeaseManager.ExpireDnat | midolman/src/test/java/org/midonet/midolman/layer4/TestNatLeaseManager.java:101-106 | expiry removes the destination binding and its reverse binding and nothing else |
| TestNatLeaseManager.SingleAddressTranslation | midolman/src/test/java/org/midonet/midolman/layer4/TestNatLeaseManager.java:214-215 | a single-address target translates to its one address |
| TestNatLeaseManager.TestSnatPingIPv4 | midolman/src/test/java/org/midonet/midolman/layer4/TestNatLeaseManager.java:125-133 | both IPv4 pings are translated |
| TestNatLeaseManager.TestSnatPingIPv6 | midolman/src/test/java/org/midonet/midolman/layer4/TestNatLeaseManager.java:135-145 | both IPv6 pings are translated |
| TestNatLeaseManager.SnatPing | midolman/src/test/java/org/midonet/midolman/layer4/TestNatLeaseManager.java:147-172 | every ping is translated (the count of successes is the number of targets), to its target's address with the identifier kept, and both lookups agree |
| TestNatLeaseManager.SnatOneTargetOneIp | midolman/src/test/java/org/midonet/midolman/layer4/TestNatLeaseManager.java:189-226 | every attempt either reports no mapping or yields the target's address with a port in range that both lookups agree with; each success adds exactly one binding to the forward and one to the reverse table |
| TestNatLeaseManager.TestSnatOneTargetOneIpIPv4 | midolman/src/test/java/org/midonet/midolman/layer4/TestNatLeaseManager.java:175-187 | the four targets see 1 + 1 + 124 + 301 attempts, each a success or a reported failure |
| TestNatLeaseManager.RoundOfSourcePort | midolman/src/test/java/org/midonet/midolman/layer4/TestNatLeaseManager.java:255 | the `(short)` source ports of different rounds never coincide, including the wrapped fourth round |
| TestNatLeaseManager.NewClientOfRound | midolman/src/test/java/org/midonet/midolman/layer4/TestNatLeaseManager.java:251-255 | each client of the test is new to the DNAT tables |
| TestNatLeaseManager.FromTheOnlyTarget | midolman/src/test/java/org/midonet/midolman/layer4/TestNatLeaseManager.java:262-266 | a translation from a one-target set fits that target |
| TestNatLeaseManager.DnatOneTargetManyIpsOnePort | midolman/src/test/java/org/midonet/midolman/layer4/TestNatLeaseManager.java:228-275 | the count of successful allocations is 4000, so all succeed, within the pool's addresses and on its first port, and both lookups agree |
| TestNatLeaseManager.FromOneOfTwo | midolman/src/test/java/org/midonet/midolman/layer4/TestNatLeaseManager.java:295-298 | a translation from two single-address targets is one target's address with that target's port |
| TestNatLeaseManager.NewClientAddress | midolman/src/test/java/org/midonet/midolman/layer4/TestNatLeaseManager.java:288-290 | a client with a new source address is new to the DNAT tables |
| TestNatLeaseManager.DnatTwoTargetsOneIpOnePortEach | midolman/src/test/java/org/midonet/midolman/layer4/TestNatLeaseManager.java:277-305 | the count of successful allocations is 1000, so all succeed, each from one of the two targets, and both lookups agree |

## Left out

- Lease refresh and time-to-live through the injected `Cache` and `Reactor`: clocks and timers are external. Expiry is modelled only as the removal of both bindings (`ExpireSnat`, `ExpireDnat`).
- ZooKeeper directory, `ZkManager`, `RouterZkManager`, `FiltersZkManager` and the Guice wiring: persistence and dependency injection.
- Concurrent allocation: each allocation and each expiry is one sequential step, so the forward and reverse bindings always change together.
- The random number generator and its distribution: the draws are parameters. The retry budget is the number of draws given.
- SnatOneTargetOneIp: does not prove the test's bound of ten tolerated failures per target (lines 197, 210). How many attempts fail depends on the random source. The model proves instead that no mapping is reported only when every drawn candidate collided, and that an address never carries more flows towards one destination than it has ports (`SnatCapacity`).
- AllocateDnat: never-fails is proved only for a client with no destination binding yet. A client that already has bindings can collide with its own reverse key, and then there is no mapping.
- SnatCapacity: the bound is per protocol and destination, because the reverse key holds the destination. The model does not state a global port budget per address.
- The other test files in the repository (the host monitor, port DAO adapter and route proxy tests) and the Neutron plugin: plumbing over ZooKeeper and DAO code that is not part of this model.
