/** The scenarios of the NAT lease manager's unit tests, as clients of the
    manager: each builds a fresh manager, drives it the way the test does,
    and proves what the test asserts, whatever the random source draws. */
module TestNatLeaseManager {
  import opened NatTypes
  import opened NatTables
  import opened Layer4

  /** The targets hold a single address each. */
  predicate SingleAddress(nats: seq<NatTarget>)
  {
    forall n | 0 <= n < |nats| :: WellFormed(nats[n]) && nats[n].nwStart == nats[n].nwEnd
  }

  /** A single-address target translates every flow to its one address. */
  lemma SingleAddressTranslation(t: NatTarget, a: IPAddr)
    requires t.nwStart == t.nwEnd && AddrInTarget(a, t)
    ensures a == t.nwStart
  {
    match a
    case IPv4(_) =>
    case IPv6(_) =>
  }

  /** ICMP echo through one single-address target after another: every
      ping gets a translation, to the target's address, with the
      identifier untouched, and both lookups agree with it. */
  method SnatPing(nats: seq<NatTarget>, nwDst: IPAddr, oldNwSrc: IPAddr, draws: seq<Draw>) returns (translated: nat)
    requires SingleAddress(nats)
    requires |nats| < 3276
    requires draws != []
    ensures translated == |nats|
  {
    var natManager := new NatLeaseManager();
    translated := 0;
    for n := 0 to |nats|
      invariant natManager.Valid()
      invariant translated == n
      invariant forall k | k in natManager.snatFwd :: k.tpSrc <= 10 * n
      invariant forall k | k in natManager.snatRev :: k.tpSrc <= 10 * n
    {
      var target := nats[n];
      var i := n + 1;
      var oldTpSrc := ToShort(10 * i);  // the ICMP identifier
      var tpDst := oldTpSrc;
      assert natManager.LookupSnatFwd(ICMP_PROTOCOL, oldNwSrc, oldTpSrc, nwDst, tpDst).None?;
      var k := FlowKey(ICMP_PROTOCOL, oldNwSrc, oldTpSrc, nwDst, tpDst);
      var firstCandidate := SnatCandidate(ICMP_PROTOCOL, oldTpSrc, target, draws[0]);
      assert Rebind(Source, k, firstCandidate) !in natManager.snatRev;
      var pair := natManager.AllocateSnat(ICMP_PROTOCOL, oldNwSrc, oldTpSrc, nwDst, tpDst, {target}, draws);
      if pair.Some? {
        SingleAddressTranslation(target, pair.value.nwAddr);
        assert pair.value.nwAddr == target.nwStart;
        assert pair.value.tpPort == oldTpSrc;
        assert natManager.LookupSnatFwd(ICMP_PROTOCOL, oldNwSrc, oldTpSrc, nwDst, tpDst) == pair;
        assert natManager.LookupSnatRev(ICMP_PROTOCOL, target.nwStart, oldTpSrc, nwDst, tpDst)
               == Some(NwTpPair(oldNwSrc, oldTpSrc));
        translated := translated + 1;
      }
    }
  }

  method TestSnatPingIPv4(draws: seq<Draw>) returns (translated: nat)
    requires draws != []
    ensures translated == 2
  {
    var nats := [NatTargetV4(0xc0a8010b, 0xc0a8010b, 100, 100),
                 NatTargetV4(0xc0a8010c, 0xc0a8010c, 200, 200)];
    translated := SnatPing(nats, IPv4(0xc0a80101), IPv4(0x0a000002), draws);
  }

  method TestSnatPingIPv6(draws: seq<Draw>) returns (translated: nat)
    requires draws != []
    ensures translated == 2
  {
    var nwStart1 := IPv6(0x00ff_0000_0000_0000_0000_0000_0000_0011);
    var nwStart2 := IPv6(0x00ff_0000_0000_0000_0000_0000_0000_0012);
    var nats := [NatTarget(nwStart1, nwStart1, 100, 100), NatTarget(nwStart2, nwStart2, 200, 200)];
    translated := SnatPing(nats, IPv6(0x00ff_0000_0000_0000_0000_0000_0000_0001),
                           IPv6(0x00ff_0000_0000_0000_0000_0000_0000_0001), draws);
  }

  /** The number of ports of the targets together. */
  function TotalPorts(nats: seq<NatTarget>): nat
    requires forall n | 0 <= n < |nats| :: WellFormed(nats[n])
  {
    if nats == [] then 0 else TotalPorts(nats[..|nats| - 1]) + PortCount(nats[|nats| - 1])
  }

  /** TCP flows from distinct sources to one destination, as many per
      single-address target as it has ports. Each attempt either reports no
      mapping or yields the target's address with a port of its range, and
      both lookups agree with it. */
  method SnatOneTargetOneIp(nats: seq<NatTarget>, nwDst: IPAddr, rng: (nat, nat) -> seq<Draw>)
    returns (natManager: NatLeaseManager, translated: nat, failed: nat)
    requires SingleAddress(nats)
    requires forall n | 0 <= n < |nats| :: PortCount(nats[n]) <= 1000
    requires |nats| < 32
    ensures translated + failed == TotalPorts(nats)
    ensures natManager.Valid()
    ensures |natManager.snatFwd| == translated && |natManager.snatRev| == translated
  {
    natManager := new NatLeaseManager();
    translated, failed := 0, 0;
    var tpDst: Short := 80;
    for n := 0 to |nats|
      invariant natManager.Valid()
      invariant translated + failed == TotalPorts(nats[..n])
      invariant |natManager.snatFwd| == translated
      invariant forall k | k in natManager.snatFwd :: k.tpSrc < 1000 * (n + 1)
    {
      var target := nats[n];
      var i := n + 1;
      var numPorts := target.tpEnd - target.tpStart + 1;
      for j := 0 to numPorts
        invariant natManager.Valid()
        invariant translated + failed == TotalPorts(nats[..n]) + j
        invariant |natManager.snatFwd| == translated
        invariant forall k | k in natManager.snatFwd :: k.tpSrc < 1000 * i + j
      {
        var oldNwSrc := IPv4(0x0a000002 + j % 8);
        var oldTpSrc := ToShort(1000 * i + j);
        assert natManager.LookupSnatFwd(TCP_PROTOCOL, oldNwSrc, oldTpSrc, nwDst, tpDst).None?;
        var pair := natManager.AllocateSnat(TCP_PROTOCOL, oldNwSrc, oldTpSrc, nwDst, tpDst, {target}, rng(n, j));
        if pair.None? {
          // the random draws all collided
          failed := failed + 1;
          continue;
        }
        SingleAddressTranslation(target, pair.value.nwAddr);
        assert pair.value.nwAddr == target.nwStart;
        assert target.tpStart <= pair.value.tpPort && target.tpEnd >= pair.value.tpPort;
        assert natManager.LookupSnatFwd(TCP_PROTOCOL, oldNwSrc, oldTpSrc, nwDst, tpDst) == pair;
        assert natManager.LookupSnatRev(TCP_PROTOCOL, pair.value.nwAddr, pair.value.tpPort, nwDst, tpDst)
               == Some(NwTpPair(oldNwSrc, oldTpSrc));
        translated := translated + 1;
      }
      assert nats[..n + 1][..n] == nats[..n];
    }
    assert nats[..|nats|] == nats;
    PairedSameSize(Source, natManager.snatFwd, natManager.snatRev);
  }

  method TestSnatOneTargetOneIpIPv4(rng: (nat, nat) -> seq<Draw>) returns (translated: nat, failed: nat)
    ensures translated + failed == 1 + 1 + 124 + 301
  {
    var nats := [NatTargetV4(0xc0a80109, 0xc0a80109, 1001, 1001),
                 NatTargetV4(0xc0a8010a, 0xc0a8010a, 1004, 1004),
                 NatTargetV4(0xc0a8010b, 0xc0a8010b, 100, 223),
                 NatTargetV4(0xc0a8010c, 0xc0a8010c, 300, 600)];
    var natManager;
    natManager, translated, failed := SnatOneTargetOneIp(nats, IPv4(0xc0a80101), rng);
    assert nats[..1][..0] == [] && nats[..2][..1] == nats[..1] && nats[..3][..2] == nats[..2];
    assert TotalPorts(nats[..1]) == 1;
    assert TotalPorts(nats[..2]) == 1 + 1;
    assert TotalPorts(nats[..3]) == 1 + 1 + 124;
    assert nats[..4] == nats;
  }

  /** Which outer round of the DNAT test issued a source port. */
  function Round(tpSrc: Short): int
  {
    if tpSrc < 0 then 4 else tpSrc / 10000
  }

  lemma RoundOfSourcePort(i: int, j: int)
    requires 1 <= i <= 4 && 0 <= j < 1000
    ensures Round(ToShort(10000 * i + j)) == i
  {
    if i == 4 {
      assert ToShort(10000 * i + j) == 40000 + j - 0x1_0000;
    }
  }

  /** The client of round `i`, step `j`, has no destination binding when
      every binding comes from an earlier round or an earlier step. */
  lemma NewClientOfRound(fwd: Table, i: int, j: int, k: FlowKey)
    requires 1 <= i <= 4 && 0 <= j < 1000
    requires k.nwSrc == IPv4(0x8c000001 + j) && k.tpSrc == ToShort(10000 * i + j)
    requires forall k' | k' in fwd :: Round(k'.tpSrc) < i || (Round(k'.tpSrc) == i && Bits(k'.nwSrc) < 0x8c000001 + j)
    ensures ClientIsNew(fwd, k)
  {
    RoundOfSourcePort(i, j);
  }

  /** A destination translation from a one-element target set fits it. */
  lemma FromTheOnlyTarget(t: NatTarget, p: NwTpPair)
    requires exists t' | t' in {t} :: DnatFits(p, t')
    ensures DnatFits(p, t)
  {
  }

  /** One public address and port, four target pools in turn, a thousand
      distinct clients per pool: every allocation succeeds, with an address
      of the pool and the pool's first port, and both lookups agree. */
  method DnatOneTargetManyIpsOnePort(rng: (nat, nat) -> Draw) returns (translated: nat)
    ensures translated == 4000
  {
    var natManager := new NatLeaseManager();
    var nats := [NatTargetV4(0x0a0a0102, 0x0a0a0102, 80, 80),
                 NatTargetV4(0x0a0a0102, 0x0a0a0103, 80, 80),
                 NatTargetV4(0x0a0a0102, 0x0a0a010f, 80, 80),
                 NatTargetV4(0x0a000010, 0x0a00001f, 11211, 11211)];
    var nwDst := IPv4(0x80c00105);
    var tpDst: Short := 80;
    translated := 0;
    for n := 0 to 4
      invariant natManager.Valid()
      invariant translated == 1000 * n
      invariant forall k | k in natManager.dnatFwd :: Round(k.tpSrc) <= n
    {
      var target := nats[n];
      var i := n + 1;
      for j := 0 to 1000
        invariant natManager.Valid()
        invariant translated == 1000 * n + j
        invariant forall k | k in natManager.dnatFwd ::
                    Round(k.tpSrc) < i || (Round(k.tpSrc) == i && Bits(k.nwSrc) < 0x8c000001 + j)
      {
        var nwSrc := IPv4(0x8c000001 + j);
        var tpSrc := ToShort(10000 * i + j);
        RoundOfSourcePort(i, j);
        NewClientOfRound(natManager.dnatFwd, i, j, FlowKey(TCP_PROTOCOL, nwSrc, tpSrc, nwDst, tpDst));
        assert natManager.LookupDnatFwd(TCP_PROTOCOL, nwSrc, tpSrc, nwDst, tpDst).None?;
        var pairF := natManager.AllocateDnat(TCP_PROTOCOL, nwSrc, tpSrc, nwDst, tpDst, {target}, rng(n, j));
        if pairF.Some? {
          FromTheOnlyTarget(target, pairF.value);
          assert AddrLe(target.nwStart, pairF.value.nwAddr);
          assert AddrLe(pairF.value.nwAddr, target.nwEnd);
          assert target.tpStart == pairF.value.tpPort;
          assert natManager.LookupDnatFwd(TCP_PROTOCOL, nwSrc, tpSrc, nwDst, tpDst) == pairF;
          assert natManager.LookupDnatRev(TCP_PROTOCOL, nwSrc, tpSrc, pairF.value.nwAddr, pairF.value.tpPort)
                 == Some(NwTpPair(nwDst, tpDst));
          translated := translated + 1;
        }
      }
    }
  }

  /** A destination translation from one of two single-address targets
      is one of their addresses, with that target's first port. */
  lemma FromOneOfTwo(t1: NatTarget, t2: NatTarget, p: NwTpPair)
    requires t1.nwStart == t1.nwEnd && t2.nwStart == t2.nwEnd
    requires exists t | t in {t1, t2} :: DnatFits(p, t)
    ensures (p.nwAddr == t1.nwStart && p.tpPort == t1.tpStart) || (p.nwAddr == t2.nwStart && p.tpPort == t2.tpStart)
  {
    var t :| t in {t1, t2} && DnatFits(p, t);
    SingleAddressTranslation(t, p.nwAddr);
  }

  /** The client of step `j` has no destination binding when every binding
      has a lower source address. */
  lemma NewClientAddress(fwd: Table, j: int, k: FlowKey)
    requires 0 <= j < 1000
    requires k.nwSrc == IPv4(0x8c000001 + j)
    requires forall k' | k' in fwd :: Bits(k'.nwSrc) < 0x8c000001 + j
    ensures ClientIsNew(fwd, k)
  {
  }

  /** Two single-address targets, a thousand clients sharing a source port
      but not an address: every allocation succeeds and comes from one of
      the two targets, and both lookups agree. */
  method DnatTwoTargetsOneIpOnePortEach(rng: nat -> Draw) returns (translated: nat)
    ensures translated == 1000
  {
    var natManager := new NatLeaseManager();
    var target1 := NatTargetV4(0x0a0a0102, 0x0a0a0102, 1000, 1000);
    var target2 := NatTargetV4(0x0a0a0105, 0x0a0a0105, 1001, 1001);
    var natSet := {target1, target2};
    var nwDst := IPv4(0xd4c00a01);
    var tpDst: Short := 80;
    translated := 0;
    for j := 0 to 1000
      invariant natManager.Valid()
      invariant translated == j
      invariant forall k | k in natManager.dnatFwd :: Bits(k.nwSrc) < 0x8c000001 + j
    {
      var nwSrc := IPv4(0x8c000001 + j);
      var tpSrc: Short := 12345;
      var k := FlowKey(TCP_PROTOCOL, nwSrc, tpSrc, nwDst, tpDst);
      NewClientAddress(natManager.dnatFwd, j, k);
      assert natManager.LookupDnatFwd(TCP_PROTOCOL, nwSrc, tpSrc, nwDst, tpDst).None?;
      ghost var before := natManager.dnatFwd;
      var pairF := natManager.AllocateDnat(TCP_PROTOCOL, nwSrc, tpSrc, nwDst, tpDst, natSet, rng(j));
      if pairF.Some? {
        assert natManager.dnatFwd == before[k := pairF.value];
        FromOneOfTwo(target1, target2, pairF.value);
        assert target1.nwStart == pairF.value.nwAddr || target2.nwStart == pairF.value.nwAddr;
        assert target1.tpStart == pairF.value.tpPort || target2.tpStart == pairF.value.tpPort;
        assert natManager.LookupDnatFwd(TCP_PROTOCOL, nwSrc, tpSrc, nwDst, tpDst) == pairF;
        assert natManager.LookupDnatRev(TCP_PROTOCOL, nwSrc, tpSrc, pairF.value.nwAddr, pairF.value.tpPort)
               == Some(NwTpPair(nwDst, tpDst));
        translated := translated + 1;
      }
    }
  }
}
