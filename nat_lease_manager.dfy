/** The NAT mapping manager of a virtual router: four lookup tables and
    the allocators that fill them. */
module Layer4 {
  import opened NatTypes
  import opened NatTables

  class NatLeaseManager {
    /** SNAT forward: original flow key to the translated source. */
    var snatFwd: Table
    /** SNAT reverse: translated flow key to the original source. */
    var snatRev: Table
    /** DNAT forward: original flow key to the translated destination. */
    var dnatFwd: Table
    /** DNAT reverse: translated flow key to the original destination. */
    var dnatRev: Table

    /** Every forward binding has its reverse binding and vice versa. */
    ghost predicate Valid()
      reads this
    {
      Paired(Source, snatFwd, snatRev) && Paired(Destination, dnatFwd, dnatRev)
    }

    constructor ()
      ensures Valid()
      ensures snatFwd == map[] && snatRev == map[] && dnatFwd == map[] && dnatRev == map[]
    {
      snatFwd, snatRev, dnatFwd, dnatRev := map[], map[], map[], map[];
    }

    /** The source a flow was translated to; a reverse lookup with it
        yields the flow's original source. */
    function LookupSnatFwd(protocol: Byte, nwSrc: IPAddr, tpSrc: Short, nwDst: IPAddr, tpDst: Short): (r: Option<NwTpPair>)
      requires Valid()
      reads this
      ensures r.Some? <==> FlowKey(protocol, nwSrc, tpSrc, nwDst, tpDst) in snatFwd
      ensures r.Some? ==>
        Lookup(snatRev, FlowKey(protocol, r.value.nwAddr, r.value.tpPort, nwDst, tpDst)) == Some(NwTpPair(nwSrc, tpSrc))
    {
      var k := FlowKey(protocol, nwSrc, tpSrc, nwDst, tpDst);
      if k in snatFwd then
        assert Rebind(Source, k, snatFwd[k]) in snatRev;
        Some(snatFwd[k])
      else
        None
    }

    /** The original source of a reply addressed to a translated source; a
        forward lookup with it yields that translated source. */
    function LookupSnatRev(protocol: Byte, newNwSrc: IPAddr, newTpSrc: Short, nwDst: IPAddr, tpDst: Short): (r: Option<NwTpPair>)
      requires Valid()
      reads this
      ensures r.Some? <==> FlowKey(protocol, newNwSrc, newTpSrc, nwDst, tpDst) in snatRev
      ensures r.Some? ==>
        Lookup(snatFwd, FlowKey(protocol, r.value.nwAddr, r.value.tpPort, nwDst, tpDst)) == Some(NwTpPair(newNwSrc, newTpSrc))
    {
      var k := FlowKey(protocol, newNwSrc, newTpSrc, nwDst, tpDst);
      if k in snatRev then
        assert Rebind(Source, k, snatRev[k]) in snatFwd;
        Some(snatRev[k])
      else
        None
    }

    /** The destination a flow was translated to; a reverse lookup with it
        yields the flow's original destination. */
    function LookupDnatFwd(protocol: Byte, nwSrc: IPAddr, tpSrc: Short, oldNwDst: IPAddr, oldTpDst: Short): (r: Option<NwTpPair>)
      requires Valid()
      reads this
      ensures r.Some? <==> FlowKey(protocol, nwSrc, tpSrc, oldNwDst, oldTpDst) in dnatFwd
      ensures r.Some? ==>
        Lookup(dnatRev, FlowKey(protocol, nwSrc, tpSrc, r.value.nwAddr, r.value.tpPort)) == Some(NwTpPair(oldNwDst, oldTpDst))
    {
      var k := FlowKey(protocol, nwSrc, tpSrc, oldNwDst, oldTpDst);
      if k in dnatFwd then
        assert Rebind(Destination, k, dnatFwd[k]) in dnatRev;
        Some(dnatFwd[k])
      else
        None
    }

    /** The original destination of a flow sent to a translated
        destination; a forward lookup with it yields that destination. */
    function LookupDnatRev(protocol: Byte, nwSrc: IPAddr, tpSrc: Short, newNwDst: IPAddr, newTpDst: Short): (r: Option<NwTpPair>)
      requires Valid()
      reads this
      ensures r.Some? <==> FlowKey(protocol, nwSrc, tpSrc, newNwDst, newTpDst) in dnatRev
      ensures r.Some? ==>
        Lookup(dnatFwd, FlowKey(protocol, nwSrc, tpSrc, r.value.nwAddr, r.value.tpPort)) == Some(NwTpPair(newNwDst, newTpDst))
    {
      var k := FlowKey(protocol, nwSrc, tpSrc, newNwDst, newTpDst);
      if k in dnatRev then
        assert Rebind(Destination, k, dnatRev[k]) in dnatFwd;
        Some(dnatRev[k])
      else
        None
    }

    /** Source translation. A flow that already has a binding keeps it.
        Otherwise the targets are tried one after another, and within a
        target every draw of the random source in turn; the first candidate
        whose reverse key is free is bound in both tables. When every
        candidate collides there is no mapping, and nothing changes. */
    method AllocateSnat(protocol: Byte, oldNwSrc: IPAddr, oldTpSrc: Short, nwDst: IPAddr, tpDst: Short,
                        nats: set<NatTarget>, draws: seq<Draw>) returns (r: Option<NwTpPair>)
      requires Valid()
      requires forall t | t in nats :: WellFormed(t)
      modifies this
      ensures Valid()
      ensures dnatFwd == old(dnatFwd) && dnatRev == old(dnatRev)
      ensures r.Some? ==> LookupSnatFwd(protocol, oldNwSrc, oldTpSrc, nwDst, tpDst) == r
      ensures r.Some? ==>
        LookupSnatRev(protocol, r.value.nwAddr, r.value.tpPort, nwDst, tpDst) == Some(NwTpPair(oldNwSrc, oldTpSrc))
      ensures var k := FlowKey(protocol, oldNwSrc, oldTpSrc, nwDst, tpDst);
        k in old(snatFwd) ==>
          r == Some(old(snatFwd)[k]) && snatFwd == old(snatFwd) && snatRev == old(snatRev)
      ensures var k := FlowKey(protocol, oldNwSrc, oldTpSrc, nwDst, tpDst);
        k !in old(snatFwd) && r.Some? ==>
          && (exists t | t in nats :: SnatFits(protocol, oldTpSrc, r.value, t))
          && Rebind(Source, k, r.value) !in old(snatRev)
          && snatFwd == old(snatFwd)[k := r.value]
          && snatRev == old(snatRev)[Rebind(Source, k, r.value) := NwTpPair(oldNwSrc, oldTpSrc)]
      ensures var k := FlowKey(protocol, oldNwSrc, oldTpSrc, nwDst, tpDst);
        r.None? ==>
          && k !in snatFwd
          && snatFwd == old(snatFwd) && snatRev == old(snatRev)
          && forall t, d | t in nats && d in draws ::
               Rebind(Source, k, SnatCandidate(protocol, oldTpSrc, t, d)) in snatRev
    {
      var k := FlowKey(protocol, oldNwSrc, oldTpSrc, nwDst, tpDst);
      if k in snatFwd {
        return Some(snatFwd[k]);
      }
      var untried := nats;
      while untried != {}
        invariant untried <= nats
        invariant unchanged(this)
        invariant forall t, d | t in nats - untried && d in draws ::
                    Rebind(Source, k, SnatCandidate(protocol, oldTpSrc, t, d)) in snatRev
        decreases untried
      {
        var t :| t in untried;
        var i := 0;
        while i < |draws|
          invariant 0 <= i <= |draws|
          invariant unchanged(this)
          invariant forall j | 0 <= j < i :: Rebind(Source, k, SnatCandidate(protocol, oldTpSrc, t, draws[j])) in snatRev
        {
          var p := SnatCandidate(protocol, oldTpSrc, t, draws[i]);
          var rk := Rebind(Source, k, p);
          if rk !in snatRev {
            CommitPreservesPaired(Source, snatFwd, snatRev, k, p);
            snatFwd := snatFwd[k := p];
            snatRev := snatRev[rk := Endpoint(Source, k)];
            return Some(p);
          }
          i := i + 1;
        }
        untried := untried - {t};
      }
      return None;
    }

    /** Destination translation. A flow that already has a binding keeps
        it. Otherwise the targets are tried one after another; each offers
        the address the draw picks from its range, with its first port. The
        first candidate whose reverse key is free is bound in both tables.
        Only a client (protocol, source address, source port) that already
        holds destination bindings can collide, so a new client is always
        translated when there is a target. */
    method AllocateDnat(protocol: Byte, nwSrc: IPAddr, tpSrc: Short, oldNwDst: IPAddr, oldTpDst: Short,
                        nats: set<NatTarget>, draw: Draw) returns (r: Option<NwTpPair>)
      requires Valid()
      requires forall t | t in nats :: WellFormed(t)
      modifies this
      ensures Valid()
      ensures snatFwd == old(snatFwd) && snatRev == old(snatRev)
      ensures r.Some? ==> LookupDnatFwd(protocol, nwSrc, tpSrc, oldNwDst, oldTpDst) == r
      ensures r.Some? ==>
        LookupDnatRev(protocol, nwSrc, tpSrc, r.value.nwAddr, r.value.tpPort) == Some(NwTpPair(oldNwDst, oldTpDst))
      ensures var k := FlowKey(protocol, nwSrc, tpSrc, oldNwDst, oldTpDst);
        k in old(dnatFwd) ==>
          r == Some(old(dnatFwd)[k]) && dnatFwd == old(dnatFwd) && dnatRev == old(dnatRev)
      ensures var k := FlowKey(protocol, nwSrc, tpSrc, oldNwDst, oldTpDst);
        k !in old(dnatFwd) && r.Some? ==>
          && (exists t | t in nats :: DnatFits(r.value, t))
          && Rebind(Destination, k, r.value) !in old(dnatRev)
          && dnatFwd == old(dnatFwd)[k := r.value]
          && dnatRev == old(dnatRev)[Rebind(Destination, k, r.value) := NwTpPair(oldNwDst, oldTpDst)]
      ensures var k := FlowKey(protocol, nwSrc, tpSrc, oldNwDst, oldTpDst);
        r.None? ==>
          && k !in dnatFwd
          && dnatFwd == old(dnatFwd) && dnatRev == old(dnatRev)
          && forall t | t in nats :: Rebind(Destination, k, DnatCandidate(t, draw)) in dnatRev
      ensures nats != {} && ClientIsNew(old(dnatFwd), FlowKey(protocol, nwSrc, tpSrc, oldNwDst, oldTpDst)) ==> r.Some?
    {
      var k := FlowKey(protocol, nwSrc, tpSrc, oldNwDst, oldTpDst);
      if k in dnatFwd {
        return Some(dnatFwd[k]);
      }
      var untried := nats;
      while untried != {}
        invariant untried <= nats
        invariant unchanged(this)
        invariant forall t | t in nats - untried :: Rebind(Destination, k, DnatCandidate(t, draw)) in dnatRev
        invariant untried != nats ==> !ClientIsNew(dnatFwd, k)
        decreases untried
      {
        var t :| t in untried;
        var p := DnatCandidate(t, draw);
        var rk := Rebind(Destination, k, p);
        if ClientIsNew(dnatFwd, k) {
          NewClientNeverCollides(dnatFwd, dnatRev, k, p);
        }
        if rk !in dnatRev {
          CommitPreservesPaired(Destination, dnatFwd, dnatRev, k, p);
          dnatFwd := dnatFwd[k := p];
          dnatRev := dnatRev[rk := Endpoint(Destination, k)];
          return Some(p);
        }
        untried := untried - {t};
      }
      return None;
    }

    /** Lease expiry of a source translation: the forward binding and its
        reverse binding go together, which frees the translated endpoint. */
    method ExpireSnat(protocol: Byte, nwSrc: IPAddr, tpSrc: Short, nwDst: IPAddr, tpDst: Short)
      requires Valid()
      modifies this
      ensures Valid()
      ensures dnatFwd == old(dnatFwd) && dnatRev == old(dnatRev)
      ensures LookupSnatFwd(protocol, nwSrc, tpSrc, nwDst, tpDst).None?
      ensures var k := FlowKey(protocol, nwSrc, tpSrc, nwDst, tpDst);
        k in old(snatFwd) ==>
          && Rebind(Source, k, old(snatFwd)[k]) !in snatRev
          && snatFwd == old(snatFwd) - {k}
          && snatRev == old(snatRev) - {Rebind(Source, k, old(snatFwd)[k])}
      ensures var k := FlowKey(protocol, nwSrc, tpSrc, nwDst, tpDst);
        k !in old(snatFwd) ==> snatFwd == old(snatFwd) && snatRev == old(snatRev)
    {
      var k := FlowKey(protocol, nwSrc, tpSrc, nwDst, tpDst);
      if k in snatFwd {
        RemovePreservesPaired(Source, snatFwd, snatRev, k);
        snatRev := snatRev - {Rebind(Source, k, snatFwd[k])};
        snatFwd := snatFwd - {k};
      }
    }

    /** Lease expiry of a destination translation: both bindings go. */
    method ExpireDnat(protocol: Byte, nwSrc: IPAddr, tpSrc: Short, oldNwDst: IPAddr, oldTpDst: Short)
      requires Valid()
      modifies this
      ensures Valid()
      ensures snatFwd == old(snatFwd) && snatRev == old(snatRev)
      ensures LookupDnatFwd(protocol, nwSrc, tpSrc, oldNwDst, oldTpDst).None?
      ensures var k := FlowKey(protocol, nwSrc, tpSrc, oldNwDst, oldTpDst);
        k in old(dnatFwd) ==>
          && Rebind(Destination, k, old(dnatFwd)[k]) !in dnatRev
          && dnatFwd == old(dnatFwd) - {k}
          && dnatRev == old(dnatRev) - {Rebind(Destination, k, old(dnatFwd)[k])}
      ensures var k := FlowKey(protocol, nwSrc, tpSrc, oldNwDst, oldTpDst);
        k !in old(dnatFwd) ==> dnatFwd == old(dnatFwd) && dnatRev == old(dnatRev)
    {
      var k := FlowKey(protocol, nwSrc, tpSrc, oldNwDst, oldTpDst);
      if k in dnatFwd {
        RemovePreservesPaired(Destination, dnatFwd, dnatRev, k);
        dnatRev := dnatRev - {Rebind(Destination, k, dnatFwd[k])};
        dnatFwd := dnatFwd - {k};
      }
    }
  }
}
