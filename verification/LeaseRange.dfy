// The address range the server leases from: the configured one when it fits the
// soft-AP's network, else one computed around the soft-AP's own address.

module LeaseRange {
  import opened Machine
  import opened Addresses
  import opened LeasePool
  import opened PoolProperties

  const DHCPS_MAX_LEASE := 0x64

  datatype Range = Range(enable: bool, start: Addr, end: Addr)

  // uint32 subtraction
  function Minus(x: uint32, y: uint32): uint32 { if x >= y then x - y else x - y + TWO_32 }

  // softap_ip >> 8
  function Upper24(h: uint32): nat { h / 0x100 }

  // A configured range must not contain the soft-AP, must lie in its /24, and
  // must span at most DHCPS_MAX_LEASE. All comparisons are in host order.
  predicate Fits(r: Range, ip: Addr) {
    var s, e, h := Host(r.start), Host(r.end), Host(ip);
    && !(s <= h <= e)
    && Upper24(s) == Upper24(h) && Upper24(e) == Upper24(h)
    && Minus(e, s) <= DHCPS_MAX_LEASE
  }

  // The bitwise or of a value with an empty low byte and a low byte.
  function OrLow(hi: uint32, lo: byte): uint32
    requires hi % 0x100 == 0
  {
    hi + lo
  }

  function DefaultRange(ip: Addr): Range {
    var net := Host(ip) - Host(ip) % 0x100;
    var octet := Host(ip) % 0x100;
    var first := if octet >= 0x80 then octet - DHCPS_MAX_LEASE else octet + 1;
    Range(false, FromHost(OrLow(net, first)), FromHost(OrLow(net, first + DHCPS_MAX_LEASE - 1)))
  }

  // wifi_softap_init_dhcps_lease
  function Init(r: Range, ip: Addr): Range {
    if r.enable && Fits(r, ip) then r else DefaultRange(ip)
  }

  // wifi_softap_set_dhcps_lease; allowed says that the soft-AP mode is on and
  // the server is stopped.
  function Set(r: Range, please: Option<Range>, ip: Addr, allowed: bool): (Range, bool) {
    if !allowed || please.None? then (r, false)
    else if !please.value.enable then (r.(enable := false), true)
    else if Fits(please.value, ip) then (please.value, true)
    else (r, false)
  }

  // ----- host order and octets -----

  lemma HostOctets(a: Addr)
    ensures Host(a) % 0x100 == a.o4
    ensures Upper24(Host(a)) == a.o3 + 0x100 * a.o2 + 0x1_0000 * a.o1
  {
    assert Host(a) == a.o4 + 0x100 * (a.o3 + 0x100 * a.o2 + 0x1_0000 * a.o1);
  }

  lemma Digits(x: byte, y: byte, z: byte, x': byte, y': byte, z': byte)
    requires x + 0x100 * y + 0x1_0000 * z == x' + 0x100 * y' + 0x1_0000 * z'
    ensures x == x' && y == y' && z == z'
  {
    Lexicographic(x, y + 0x100 * z, x', y' + 0x100 * z');
    Lexicographic(y, z, y', z');
  }

  lemma Upper24IsNet(a: Addr, b: Addr)
    ensures Upper24(Host(a)) == Upper24(Host(b)) <==> SameNet(a, b)
  {
    HostOctets(a);
    HostOctets(b);
    if Upper24(Host(a)) == Upper24(Host(b)) {
      Digits(a.o3, a.o2, a.o1, b.o3, b.o2, b.o1);
    }
  }

  lemma LowOctetOff(a: Addr)
    ensures (Host(a) - a.o4) % 0x100 == 0
  {
    HostOctets(a.(o4 := 0));
  }

  lemma OrLowIsHost(a: Addr, hi: uint32, lo: byte)
    requires hi == Host(a) - a.o4 && hi % 0x100 == 0
    ensures OrLow(hi, lo) == Host(a.(o4 := lo))
  {}

  lemma OrLowSetsOctet(a: Addr, lo: byte)
    ensures (Host(a) - a.o4) % 0x100 == 0
    ensures FromHost(OrLow(Host(a) - a.o4, lo)) == a.(o4 := lo)
  {
    LowOctetOff(a);
    OrLowIsHost(a, Host(a) - a.o4, lo);
    AddrRoundTrip(a.(o4 := lo));
  }

  lemma DefaultRangeOctets(ip: Addr)
    ensures var first := if ip.o4 >= 0x80 then ip.o4 - DHCPS_MAX_LEASE else ip.o4 + 1;
            DefaultRange(ip) == Range(false, ip.(o4 := first), ip.(o4 := first + DHCPS_MAX_LEASE - 1))
  {
    HostOctets(ip);
    var first := if ip.o4 >= 0x80 then ip.o4 - DHCPS_MAX_LEASE else ip.o4 + 1;
    OrLowSetsOctet(ip, first);
    OrLowSetsOctet(ip, first + DHCPS_MAX_LEASE - 1);
  }

  lemma FitsMeans(r: Range, ip: Addr)
    ensures Fits(r, ip) <==>
              && SameNet(r.start, ip) && SameNet(r.end, ip)
              && r.start.o4 <= r.end.o4 <= r.start.o4 + DHCPS_MAX_LEASE
              && !(r.start.o4 <= ip.o4 <= r.end.o4)
  {
    Upper24IsNet(r.start, ip);
    Upper24IsNet(r.end, ip);
    if SameNet(r.start, ip) && SameNet(r.end, ip) {
      RawOrderIsHostOrder(r.start, ip);
      RawOrderIsHostOrder(ip, r.end);
      RawOrderIsHostOrder(r.start, r.end);
    }
  }

  // THE LEASED RANGE. For every soft-AP address and every configuration the
  // range lies in the soft-AP's /24, runs upwards in host order over at most 101
  // addresses, and leaves the soft-AP's own address out. A computed range also
  // avoids the octets 0 and 255.
  lemma RangeIsSound(r: Range, ip: Addr)
    ensures var q := Init(r, ip);
            && SameNet(q.start, ip) && SameNet(q.end, ip)
            && Host(q.start) <= Host(q.end) <= Host(q.start) + DHCPS_MAX_LEASE
            && !(Host(q.start) <= Host(ip) <= Host(q.end))
            && (!q.enable ==> 1 <= q.start.o4 && q.end.o4 <= 254)
  {
    DefaultRangeOctets(ip);
    FitsMeans(r, ip);
    var q := Init(r, ip);
    RawOrderIsHostOrder(q.start, q.end);
    RawOrderIsHostOrder(q.start, ip);
    RawOrderIsHostOrder(ip, q.end);
  }

  // WHICH RANGES THE ALLOCATOR CAN USE: all but a configured one that ends at
  // .255 or starts at 0.0.0.0.
  lemma RangeSuitsPoolIff(r: Range, ip: Addr, leaseTime: uint32)
    requires leaseTime >= 1
    ensures var q := Init(r, ip);
            RangeOk(Config(q.start, q.end, leaseTime)) <==>
              !(q.enable && (q.end.o4 == 255 || q.start == IPADDR_ANY))
  {
    RangeIsSound(r, ip);
    var q := Init(r, ip);
    RawOrderIsHostOrder(q.start, q.end);
  }

  // The octets that make a range fit the soft-AP address: same /24, in order, at
  // most 100 apart, the soft-AP outside.
  predicate FitsOctets(start: Addr, end: Addr, ip: Addr) {
    && start.o1 == end.o1 == ip.o1 && start.o2 == end.o2 == ip.o2 && start.o3 == end.o3 == ip.o3
    && start.o4 <= end.o4 <= start.o4 + 100
    && (ip.o4 < start.o4 || end.o4 < ip.o4)
  }

  // WHICH RANGES ARE ACCEPTED: while changes are allowed, a request to disable,
  // or a range that fits. The former keeps the addresses, the latter is stored.
  lemma SetAcceptsIff(r: Range, please: Option<Range>, ip: Addr, allowed: bool)
    ensures var (q, ok) := Set(r, please, ip, allowed);
            && (ok <==> allowed && please.Some? &&
                        (please.value.enable ==> FitsOctets(please.value.start, please.value.end, ip)))
            && (ok && please.value.enable ==> q == please.value)
            && (ok && !please.value.enable ==> !q.enable && q.start == r.start && q.end == r.end)
            && (!ok ==> q == r)
  {
    if please.Some? {
      FitsMeans(please.value, ip);
    }
  }

  // WHICH RANGE THE SERVER STARTS WITH: the configured one if it is enabled and
  // fits, else the hundred addresses below or above the soft-AP's own.
  lemma InitIs(r: Range, ip: Addr)
    ensures var q := Init(r, ip);
            if r.enable && FitsOctets(r.start, r.end, ip) then q == r
            else
              && !q.enable && SameNet(q.start, ip) && SameNet(q.end, ip)
              && q.start.o4 == (if ip.o4 >= 128 then ip.o4 - 100 else ip.o4 + 1) && q.end.o4 == q.start.o4 + 99
  {
    FitsMeans(r, ip);
    DefaultRangeOctets(ip);
  }

  // What set accepts, a start with the same soft-AP address keeps; what it
  // rejects leaves the configuration alone.
  lemma SetThenInit(r: Range, please: Option<Range>, ip: Addr, allowed: bool)
    ensures var (q, ok) := Set(r, please, ip, allowed);
            && (!ok ==> q == r)
            && (ok && please.value.enable ==> Init(q, ip) == please.value)
            && (ok && !please.value.enable ==> Init(q, ip) == DefaultRange(ip))
  {}
}
