/** Values of the layer-4 NAT model: addresses of either family, Java's
    `short` and `byte` as bounded integers, translated endpoints, NAT
    targets, flow keys, and the candidate endpoints an allocator may draw
    from a target. */
module NatTypes {

  datatype Option<+T> = None | Some(value: T)

  const TWO_32: nat := 0x1_0000_0000
  const TWO_128: nat := 0x1_0000_0000_0000_0000_0000_0000_0000_0000

  type U32 = x: nat | x < TWO_32
  type U128 = x: nat | x < TWO_128

  /** Java's `short`, the type of every transport port and ICMP identifier. */
  type Short = x: int | -0x8000 <= x < 0x8000

  /** Java's `byte`, the type of the IP protocol number. */
  type Byte = x: int | -0x80 <= x < 0x80

  const ICMP_PROTOCOL: Byte := 1
  const TCP_PROTOCOL: Byte := 6

  /** Java's narrowing cast `(short) x`: keep the low 16 bits, read them signed. */
  function ToShort(x: int): (s: Short)
    ensures (x - s) % 0x1_0000 == 0
    ensures -0x8000 <= x < 0x8000 ==> s == x
  {
    (x + 0x8000) % 0x1_0000 - 0x8000
  }

  /** An IPv4 or IPv6 address, as its unsigned numeric value. */
  datatype IPAddr = IPv4(v4: U32) | IPv6(v6: U128)

  function Bits(a: IPAddr): nat
  {
    match a
    case IPv4(x) => x
    case IPv6(x) => x
  }

  predicate SameFamily(a: IPAddr, b: IPAddr)
  {
    a.IPv4? == b.IPv4?
  }

  /** `a <= b`: only addresses of one family are ordered. */
  predicate AddrLe(a: IPAddr, b: IPAddr)
  {
    SameFamily(a, b) && Bits(a) <= Bits(b)
  }

  /** `AddrLe` orders each family totally, and never relates addresses of
      two families. */
  lemma AddrLeOrder(a: IPAddr, b: IPAddr, c: IPAddr)
    ensures AddrLe(a, a)
    ensures AddrLe(a, b) && AddrLe(b, a) ==> a == b
    ensures AddrLe(a, b) && AddrLe(b, c) ==> AddrLe(a, c)
    ensures SameFamily(a, b) ==> AddrLe(a, b) || AddrLe(b, a)
    ensures !SameFamily(a, b) ==> !AddrLe(a, b) && !AddrLe(b, a)
  {
    match a
    case IPv4(_) =>
    case IPv6(_) =>
  }

  /** A translated endpoint; equality is by value. */
  datatype NwTpPair = NwTpPair(nwAddr: IPAddr, tpPort: Short)

  /** A pool of addresses `nwStart..nwEnd` crossed with ports `tpStart..tpEnd`. */
  datatype NatTarget = NatTarget(nwStart: IPAddr, nwEnd: IPAddr, tpStart: Short, tpEnd: Short)

  /** The `NatTarget(int, int, short, short)` constructor for IPv4 pools. */
  function NatTargetV4(nwStart: U32, nwEnd: U32, tpStart: Short, tpEnd: Short): (t: NatTarget)
    ensures t.nwStart.IPv4? && t.nwEnd.IPv4?
    ensures Bits(t.nwStart) == nwStart && Bits(t.nwEnd) == nwEnd
    ensures t.tpStart == tpStart && t.tpEnd == tpEnd
  {
    NatTarget(IPv4(nwStart), IPv4(nwEnd), tpStart, tpEnd)
  }

  /** Both ranges are non-empty and the addresses are of one family. */
  predicate WellFormed(t: NatTarget)
  {
    AddrLe(t.nwStart, t.nwEnd) && t.tpStart <= t.tpEnd
  }

  predicate AddrInTarget(a: IPAddr, t: NatTarget)
  {
    AddrLe(t.nwStart, a) && AddrLe(a, t.nwEnd)
  }

  predicate PortInTarget(p: int, t: NatTarget)
  {
    t.tpStart <= p <= t.tpEnd
  }

  function AddrCount(t: NatTarget): (n: nat)
    requires WellFormed(t)
    ensures n >= 1
  {
    Bits(t.nwEnd) - Bits(t.nwStart) + 1
  }

  function PortCount(t: NatTarget): (n: nat)
    requires WellFormed(t)
    ensures n >= 1
  {
    t.tpEnd - t.tpStart + 1
  }

  /** The address `offset` places after the start of the target's range. */
  function AddrAt(t: NatTarget, offset: nat): (a: IPAddr)
    requires WellFormed(t) && offset < AddrCount(t)
    ensures AddrInTarget(a, t)
    ensures Bits(a) - Bits(t.nwStart) == offset
  {
    match t.nwStart
    case IPv4(s) => IPv4(s + offset)
    case IPv6(s) => IPv6(s + offset)
  }

  /** The identity of one direction of a flow. */
  datatype FlowKey = FlowKey(protocol: Byte, nwSrc: IPAddr, tpSrc: Short, nwDst: IPAddr, tpDst: Short)

  /** Two random numbers drawn for one allocation attempt: one picks the
      address and one the port within a target. */
  datatype Draw = Draw(addrPick: nat, portPick: nat)

  /** A valid source translation for a flow whose source port is `oldTpSrc`:
      the address lies in the target; an ICMP identifier stays as it was,
      any other protocol's port lies in the target's port range. */
  predicate SnatFits(protocol: Byte, oldTpSrc: Short, p: NwTpPair, t: NatTarget)
  {
    AddrInTarget(p.nwAddr, t) &&
    if protocol == ICMP_PROTOCOL then p.tpPort == oldTpSrc else PortInTarget(p.tpPort, t)
  }

  /** A valid destination translation: an address of the target with the
      target's first port. */
  predicate DnatFits(p: NwTpPair, t: NatTarget)
  {
    AddrInTarget(p.nwAddr, t) && p.tpPort == t.tpStart
  }

  /** The source translation proposed by draw `d` from target `t`. */
  function SnatCandidate(protocol: Byte, oldTpSrc: Short, t: NatTarget, d: Draw): (p: NwTpPair)
    requires WellFormed(t)
    ensures SnatFits(protocol, oldTpSrc, p, t)
  {
    var port := if protocol == ICMP_PROTOCOL then oldTpSrc else t.tpStart + d.portPick % PortCount(t);
    NwTpPair(AddrAt(t, d.addrPick % AddrCount(t)), port)
  }

  /** The destination translation proposed by draw `d` from target `t`. */
  function DnatCandidate(t: NatTarget, d: Draw): (p: NwTpPair)
    requires WellFormed(t)
    ensures DnatFits(p, t)
  {
    NwTpPair(AddrAt(t, d.addrPick % AddrCount(t)), t.tpStart)
  }

  /** Every fitting source translation is proposed by some draw: the
      random choice can reach the whole target. */
  lemma SnatCandidateCovers(protocol: Byte, oldTpSrc: Short, t: NatTarget, p: NwTpPair)
    requires WellFormed(t) && SnatFits(protocol, oldTpSrc, p, t)
    ensures exists d :: SnatCandidate(protocol, oldTpSrc, t, d) == p
  {
    var addrPick: nat := Bits(p.nwAddr) - Bits(t.nwStart);
    var portPick: nat := if protocol == ICMP_PROTOCOL then 0 else p.tpPort - t.tpStart;
    SmallRemainder(addrPick, AddrCount(t));
    SmallRemainder(portPick, PortCount(t));
    var q := SnatCandidate(protocol, oldTpSrc, t, Draw(addrPick, portPick));
    assert q.nwAddr == p.nwAddr;
  }

  lemma SmallRemainder(x: nat, n: nat)
    requires x < n
    ensures x % n == x
  {
  }

  /** Every fitting destination translation is proposed by some draw. */
  lemma DnatCandidateCovers(t: NatTarget, p: NwTpPair)
    requires WellFormed(t) && DnatFits(p, t)
    ensures exists d :: DnatCandidate(t, d) == p
  {
    var addrPick: nat := Bits(p.nwAddr) - Bits(t.nwStart);
    SmallRemainder(addrPick, AddrCount(t));
    var q := DnatCandidate(t, Draw(addrPick, 0));
    assert q.nwAddr == p.nwAddr;
  }
}
