/** Counting facts used to bound how many bindings a port range can hold. */
module Counting {

  /** A set mapped one-to-one into another is no larger than it. */
  lemma {:induction false} InjectionBound<A, B>(xs: set<A>, ys: set<B>, f: A -> B)
    requires forall x | x in xs :: f(x) in ys
    requires forall x, y | x in xs && y in xs && f(x) == f(y) :: x == y
    ensures |xs| <= |ys|
  {
    if xs != {} {
      var x :| x in xs;
      InjectionBound(xs - {x}, ys - {f(x)}, f);
    }
  }

  /** The integers `lo..hi`. */
  function Interval(lo: int, hi: int): (s: set<int>)
    ensures forall x :: x in s <==> lo <= x <= hi
    decreases hi - lo
  {
    if hi < lo then {} else Interval(lo, hi - 1) + {hi}
  }

  /** The integers `lo..hi` number `hi - lo + 1`. */
  lemma {:induction false} IntervalSize(lo: int, hi: int)
    requires lo <= hi + 1
    ensures |Interval(lo, hi)| == hi - lo + 1
    decreases hi - lo
  {
    if lo <= hi {
      IntervalSize(lo, hi - 1);
      assert hi !in Interval(lo, hi - 1);
    }
  }
}

/** The forward and reverse lookup tables of one kind of translation and
    the invariant that keeps them mirror images of each other. */
module NatTables {
  import opened NatTypes
  import Counting

  type Table = map<FlowKey, NwTpPair>

  /** Which endpoint of a flow a translation rewrites: the source for SNAT,
      the destination for DNAT. */
  datatype Side = Source | Destination

  /** The rewritten endpoint of a flow key. */
  function Endpoint(side: Side, k: FlowKey): NwTpPair
  {
    match side
    case Source => NwTpPair(k.nwSrc, k.tpSrc)
    case Destination => NwTpPair(k.nwDst, k.tpDst)
  }

  /** The endpoint a translation leaves alone. */
  function Kept(side: Side, k: FlowKey): NwTpPair
  {
    match side
    case Source => NwTpPair(k.nwDst, k.tpDst)
    case Destination => NwTpPair(k.nwSrc, k.tpSrc)
  }

  /** The key of the other direction's table: `k` with its rewritten
      endpoint replaced by `p`, protocol and kept endpoint as they were. */
  function Rebind(side: Side, k: FlowKey, p: NwTpPair): (r: FlowKey)
    ensures Endpoint(side, r) == p
    ensures r.protocol == k.protocol && Kept(side, r) == Kept(side, k)
  {
    match side
    case Source => FlowKey(k.protocol, p.nwAddr, p.tpPort, k.nwDst, k.tpDst)
    case Destination => FlowKey(k.protocol, k.nwSrc, k.tpSrc, p.nwAddr, p.tpPort)
  }

  /** Rebinding the reverse key to the original endpoint gives back the
      original key. */
  lemma RebindRoundTrip(side: Side, k: FlowKey, p: NwTpPair)
    ensures Rebind(side, Rebind(side, k, p), Endpoint(side, k)) == k
  {
  }

  function Lookup(t: Table, k: FlowKey): Option<NwTpPair>
  {
    if k in t then Some(t[k]) else None
  }

  /** Every binding of `a` has its mirror image in `b`. */
  ghost predicate Mirrors(side: Side, a: Table, b: Table)
  {
    forall k {:trigger Rebind(side, k, a[k])} | k in a :: Rebind(side, k, a[k]) in b && b[Rebind(side, k, a[k])] == Endpoint(side, k)
  }

  /** The forward and reverse tables are exact mirror images. */
  ghost predicate Paired(side: Side, fwd: Table, rev: Table)
  {
    Mirrors(side, fwd, rev) && Mirrors(side, rev, fwd)
  }

  /** Two bindings of a mirrored table never share a reverse key. */
  lemma ReverseKeyInjective(side: Side, fwd: Table, rev: Table, k1: FlowKey, k2: FlowKey)
    requires Mirrors(side, fwd, rev)
    requires k1 in fwd && k2 in fwd
    requires Rebind(side, k1, fwd[k1]) == Rebind(side, k2, fwd[k2])
    ensures k1 == k2
  {
    var r := Rebind(side, k1, fwd[k1]);
    RebindRoundTrip(side, k1, fwd[k1]);
    RebindRoundTrip(side, k2, fwd[k2]);
    assert Endpoint(side, k1) == rev[r] == Endpoint(side, k2);
  }

  /** Installing a binding whose forward and reverse keys are both free
      keeps the tables mirror images. */
  lemma CommitPreservesPaired(side: Side, fwd: Table, rev: Table, k: FlowKey, p: NwTpPair)
    requires Paired(side, fwd, rev)
    requires k !in fwd && Rebind(side, k, p) !in rev
    ensures Paired(side, fwd[k := p], rev[Rebind(side, k, p) := Endpoint(side, k)])
  {
    var rk := Rebind(side, k, p);
    var fwd', rev' := fwd[k := p], rev[rk := Endpoint(side, k)];
    forall k' | k' in fwd'
      ensures Rebind(side, k', fwd'[k']) in rev' && rev'[Rebind(side, k', fwd'[k'])] == Endpoint(side, k')
    {
      if k' == k {
        assert Rebind(side, k', fwd'[k']) == rk;
      } else {
        assert Rebind(side, k', fwd[k']) in rev;
      }
    }
    forall r | r in rev'
      ensures Rebind(side, r, rev'[r]) in fwd' && fwd'[Rebind(side, r, rev'[r])] == Endpoint(side, r)
    {
      if r == rk {
        RebindRoundTrip(side, k, p);
      } else {
        assert Rebind(side, r, rev[r]) in fwd;
      }
    }
  }

  /** Removing a binding together with its mirror image keeps the tables
      mirror images. */
  lemma RemovePreservesPaired(side: Side, fwd: Table, rev: Table, k: FlowKey)
    requires Paired(side, fwd, rev)
    requires k in fwd
    ensures Paired(side, fwd - {k}, rev - {Rebind(side, k, fwd[k])})
  {
    var rk := Rebind(side, k, fwd[k]);
    var fwd', rev' := fwd - {k}, rev - {rk};
    forall k' | k' in fwd'
      ensures Rebind(side, k', fwd'[k']) in rev' && rev'[Rebind(side, k', fwd'[k'])] == Endpoint(side, k')
    {
      if Rebind(side, k', fwd[k']) == rk {
        ReverseKeyInjective(side, fwd, rev, k', k);
      }
    }
    forall r | r in rev'
      ensures Rebind(side, r, rev'[r]) in fwd' && fwd'[Rebind(side, r, rev'[r])] == Endpoint(side, r)
    {
    }
  }

  /** A table mirrored into another is no larger than it. */
  lemma MirrorSizeBound(side: Side, a: Table, b: Table)
    requires Mirrors(side, a, b)
    ensures |a| <= |b|
  {
    var toB := (k: FlowKey) => if k in a then Rebind(side, k, a[k]) else k;
    forall k1, k2 | k1 in a.Keys && k2 in a.Keys && toB(k1) == toB(k2) ensures k1 == k2 {
      ReverseKeyInjective(side, a, b, k1, k2);
    }
    Counting.InjectionBound(a.Keys, b.Keys, toB);
  }

  /** Mirrored tables hold the same number of bindings. */
  lemma PairedSameSize(side: Side, fwd: Table, rev: Table)
    requires Paired(side, fwd, rev)
    ensures |fwd| == |rev|
  {
    MirrorSizeBound(side, fwd, rev);
    MirrorSizeBound(side, rev, fwd);
  }

  /** The source-translated flows towards one destination that use address
      `addr` with a port in `lo..hi`. */
  ghost function SnatUsing(fwd: Table, protocol: Byte, nwDst: IPAddr, tpDst: Short, addr: IPAddr, lo: int, hi: int): set<FlowKey>
  {
    set k | k in fwd && k.protocol == protocol && k.nwDst == nwDst && k.tpDst == tpDst
                     && fwd[k].nwAddr == addr && lo <= fwd[k].tpPort <= hi
  }

  /** Port-space exhaustion: towards one destination, an address with the
      ports `lo..hi` carries at most `hi - lo + 1` source-translated flows. */
  lemma SnatCapacity(fwd: Table, rev: Table, protocol: Byte, nwDst: IPAddr, tpDst: Short, addr: IPAddr, lo: int, hi: int)
    requires Paired(Source, fwd, rev)
    requires lo <= hi + 1
    ensures |SnatUsing(fwd, protocol, nwDst, tpDst, addr, lo, hi)| <= hi - lo + 1
  {
    var using := SnatUsing(fwd, protocol, nwDst, tpDst, addr, lo, hi);
    var ports := Counting.Interval(lo, hi);
    var portOf := (k: FlowKey) => if k in fwd then fwd[k].tpPort as int else lo;
    forall k1, k2 | k1 in using && k2 in using && portOf(k1) == portOf(k2) ensures k1 == k2 {
      assert Rebind(Source, k1, fwd[k1]) == Rebind(Source, k2, fwd[k2]);
      ReverseKeyInjective(Source, fwd, rev, k1, k2);
    }
    Counting.InjectionBound(using, ports, portOf);
    Counting.IntervalSize(lo, hi);
  }

  /** No client has a destination binding yet: the protocol, source address
      and source port of `k` occur in no forward key. */
  ghost predicate ClientIsNew(fwd: Table, k: FlowKey)
  {
    forall k' | k' in fwd :: Kept(Destination, k') != Kept(Destination, k) || k'.protocol != k.protocol
  }

  /** A new client collides with no reverse destination binding, whatever
      the translated endpoint: destination translation cannot run out. */
  lemma NewClientNeverCollides(fwd: Table, rev: Table, k: FlowKey, p: NwTpPair)
    requires Paired(Destination, fwd, rev)
    requires ClientIsNew(fwd, k)
    ensures Rebind(Destination, k, p) !in rev
  {
    var r := Rebind(Destination, k, p);
    if r in rev {
      // the client that would own `r` is the client of `k`
      var owner := Rebind(Destination, r, rev[r]);
    }
  }
}
