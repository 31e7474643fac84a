// IPv4 addresses. In memory an address is four octets in network order; the
// source keeps them in a uint32 and compares that uint32 directly. On the
// little-endian ESP8266 the raw integer has the LAST octet as its most
// significant byte, while ntohl gives the first octet that place.

module Addresses {
  import opened Machine

  datatype Addr = Addr(o1: byte, o2: byte, o3: byte, o4: byte)

  const IPADDR_ANY := Addr(0, 0, 0, 0)
  const IPADDR_BROADCAST := Addr(255, 255, 255, 255)

  // The uint32 as loaded from memory.
  function Raw(a: Addr): uint32 {
    a.o1 + 0x100 * a.o2 + 0x1_0000 * a.o3 + 0x100_0000 * a.o4
  }

  // The uint32 comparison a < b, most significant byte first.
  predicate Below(a: Addr, b: Addr) {
    a.o4 < b.o4 || (a.o4 == b.o4 &&
    (a.o3 < b.o3 || (a.o3 == b.o3 &&
    (a.o2 < b.o2 || (a.o2 == b.o2 && a.o1 < b.o1)))))
  }

  // ntohl
  function Host(a: Addr): uint32 {
    a.o4 + 0x100 * a.o3 + 0x1_0000 * a.o2 + 0x100_0000 * a.o1
  }

  // htonl
  function FromHost(h: uint32): Addr {
    Addr(h / 0x100_0000, h / 0x1_0000 % 0x100, h / 0x100 % 0x100, h % 0x100)
  }

  // htonl(ntohl(a) + 1): the carry runs from the last octet to the first.
  function Next(a: Addr): Addr {
    if a.o4 < 255 then a.(o4 := a.o4 + 1)
    else if a.o3 < 255 then Addr(a.o1, a.o2, a.o3 + 1, 0)
    else if a.o2 < 255 then Addr(a.o1, a.o2 + 1, 0, 0)
    else if a.o1 < 255 then Addr(a.o1 + 1, 0, 0, 0)
    else IPADDR_ANY
  }

  predicate SameNet(a: Addr, b: Addr) {
    a.o1 == b.o1 && a.o2 == b.o2 && a.o3 == b.o3
  }

  lemma BelowIsRawOrder(a: Addr, b: Addr)
    ensures Below(a, b) <==> Raw(a) < Raw(b)
  {
    assert Raw(a) == a.o1 + 0x100 * (a.o2 + 0x100 * (a.o3 + 0x100 * a.o4));
    assert Raw(b) == b.o1 + 0x100 * (b.o2 + 0x100 * (b.o3 + 0x100 * b.o4));
    Lexicographic(a.o1, a.o2 + 0x100 * (a.o3 + 0x100 * a.o4), b.o1, b.o2 + 0x100 * (b.o3 + 0x100 * b.o4));
    Lexicographic(a.o2, a.o3 + 0x100 * a.o4, b.o2, b.o3 + 0x100 * b.o4);
    Lexicographic(a.o3, a.o4, b.o3, b.o4);
  }

  lemma Lexicographic(x: byte, d: nat, y: byte, e: nat)
    ensures x + 0x100 * d < y + 0x100 * e <==> d < e || (d == e && x < y)
    ensures x + 0x100 * d == y + 0x100 * e <==> d == e && x == y
  {}

  lemma HostInjective(a: Addr, b: Addr)
    requires Host(a) == Host(b)
    ensures a == b
  {
    assert Host(a) == a.o4 + 0x100 * (a.o3 + 0x100 * (a.o2 + 0x100 * a.o1));
    assert Host(b) == b.o4 + 0x100 * (b.o3 + 0x100 * (b.o2 + 0x100 * b.o1));
    Lexicographic(a.o4, a.o3 + 0x100 * (a.o2 + 0x100 * a.o1), b.o4, b.o3 + 0x100 * (b.o2 + 0x100 * b.o1));
    Lexicographic(a.o3, a.o2 + 0x100 * a.o1, b.o3, b.o2 + 0x100 * b.o1);
    Lexicographic(a.o2, a.o1, b.o2, b.o1);
  }

  lemma HostRoundTrip(h: uint32)
    ensures Host(FromHost(h)) == h
  {
    var q1, q2 := h / 0x100, h / 0x1_0000;
    assert q2 == q1 / 0x100;
    assert h / 0x100_0000 == q2 / 0x100;
  }

  lemma AddrRoundTrip(a: Addr)
    ensures FromHost(Host(a)) == a
  {
    HostRoundTrip(Host(a));
    HostInjective(FromHost(Host(a)), a);
  }

  lemma NextOnHost(a: Addr)
    ensures Host(Next(a)) == if Host(a) == TWO_32 - 1 then 0 else Host(a) + 1
  {
    assert Host(a) == TWO_32 - 1 ==> a == IPADDR_BROADCAST by {
      if Host(a) == TWO_32 - 1 {
        HostInjective(a, IPADDR_BROADCAST);
      }
    }
  }

  lemma IncrementWraps(h: uint32)
    ensures (h + 1) % 0x1_0000_0000 == if h == TWO_32 - 1 then 0 else h + 1
  {}

  // Next is htonl(ntohl(a) + 1) with the uint32 wrap.
  lemma NextIsSuccessor(a: Addr)
    ensures Host(Next(a)) == (Host(a) + 1) % 0x1_0000_0000
    ensures Next(a) == FromHost((Host(a) + 1) % 0x1_0000_0000)
  {
    NextOnHost(a);
    IncrementWraps(Host(a));
    AddrRoundTrip(Next(a));
  }

  // Inside one /24 the source's raw comparison agrees with address order.
  lemma RawOrderIsHostOrder(a: Addr, b: Addr)
    requires SameNet(a, b)
    ensures Raw(a) < Raw(b) <==> Host(a) < Host(b)
    ensures Host(b) - Host(a) == b.o4 - a.o4
  {}

  // The comparison sees the successor as larger exactly when the last octet is
  // below 255: from .255 the successor looks smaller.
  lemma NextLooksLargerIff(a: Addr)
    ensures Below(a, Next(a)) <==> a.o4 < 255
    ensures SameNet(a, Next(a)) && Next(a).o4 == a.o4 + 1 <==> a.o4 < 255
  {}
}
