// The DHCP server's lease pool as a value: a sequence of leases in list order,
// and what each server operation does to it. The linked list of DhcpServer is
// proved to compute exactly these functions; the lemmas of PoolProperties say
// what they mean.

module LeasePool {
  import opened Machine
  import opened Addresses
  import opened Lists

  type Mac = x: int | 0 <= x < 0x1_0000_0000_0000

  datatype LeaseType = Dynamic | Static

  datatype LeaseState = Online | Offline

  datatype Lease = Lease(ip: Addr, mac: Mac, timer: uint32, kind: LeaseType, state: LeaseState)

  type Pool = seq<Lease>

  // The configured range (dhcps_lease) and lease time (dhcps_lease_time).
  datatype Config = Config(start: Addr, end: Addr, leaseTime: uint32)

  const MAX_STATION_NUM := 8

  // ----- searching -----

  function IndexOfMac(p: Pool, mac: Mac): (k: nat)
    ensures k <= |p|
    ensures k < |p| ==> p[k].mac == mac
    ensures forall i | 0 <= i < k :: p[i].mac != mac
  {
    if |p| == 0 || p[0].mac == mac then 0 else 1 + IndexOfMac(p[1..], mac)
  }

  // The last entry holding the address, as the source's pass does not stop at a match.
  function LastIndexOfIp(p: Pool, a: Addr): (k: nat)
    ensures k <= |p|
    ensures k < |p| ==> p[k].ip == a && forall i | k < i < |p| :: p[i].ip != a
    ensures k == |p| ==> forall i | 0 <= i < |p| :: p[i].ip != a
  {
    if |p| == 0 then 0
    else if p[|p| - 1].ip == a then |p| - 1
    else
      var k := LastIndexOfIp(p[..|p| - 1], a);
      if k == |p| - 1 then |p| else k
  }

  // The first address from a on that the pass does not find at the expected place.
  function Gap(p: Pool, a: Addr): Addr {
    if |p| == 0 || p[0].ip != a then a else Gap(p[1..], Next(a))
  }

  // ----- sorted insertion -----

  function InsertPos(p: Pool, a: Addr): (k: nat)
    ensures k <= |p|
    ensures forall i | 0 <= i < k :: !Below(a, p[i].ip)
    ensures k < |p| ==> Below(a, p[k].ip)
  {
    if |p| == 0 || Below(a, p[0].ip) then 0 else 1 + InsertPos(p[1..], a)
  }

  function Insert(p: Pool, l: Lease): Pool {
    InsertAt(p, InsertPos(p, l.ip), l)
  }

  // ----- wifi_softap_dhcps_client_update -----

  datatype Update = Update(pool: Pool, reply: Addr, renew: bool)

  // No address was asked for: hand out the first gap.
  function Assign(p: Pool, mac: Mac, c: Config): (Pool, Addr) {
    var k := IndexOfMac(p, mac);
    var a := Gap(p[..k], c.start);
    if k < |p| then
      (Insert(RemoveAt(p, k), Lease(a, mac, c.leaseTime, Dynamic, Online)), a)
    else if Below(c.end, a) then
      (p, IPADDR_ANY)
    else
      (Insert(p, Lease(a, mac, c.leaseTime, Dynamic, Online)), a)
  }

  // The client names its address in ciaddr.
  function Claim(p: Pool, mac: Mac, a: Addr, c: Config): Update {
    var m, i := IndexOfMac(p, mac), LastIndexOfIp(p, a);
    var bound := Lease(a, mac, c.leaseTime, Static, Online);
    if m < |p| && i == m then
      Update(p[m := bound.(kind := Dynamic)], a, true)
    else if i < |p| then
      if p[i].state != Offline then Update(p, IPADDR_ANY, false)
      else if m < |p| then Update(RemoveAt(p[i := bound], m), a, false)
      else Update(p[i := bound], a, false)
    else if m < |p| then
      Update(Insert(RemoveAt(p, m), bound), a, false)
    else if Below(c.end, a) then
      Update(p, IPADDR_ANY, false)
    else
      Update(Insert(p, bound), a, false)
  }

  // mac and ip are absent when the caller passes NULL; renew is the flag left
  // by the previous call.
  function ClientUpdate(p: Pool, mac: Option<Mac>, ip: Option<Addr>, c: Config, renew: bool): Update {
    if mac.None? || ip == Some(IPADDR_BROADCAST) then
      Update(p, IPADDR_ANY, renew)
    else if ip.None? || ip == Some(IPADDR_ANY) then
      var (pool, reply) := Assign(p, mac.value, c);
      Update(pool, reply, false)
    else
      Claim(p, mac.value, ip.value, c)
  }

  // ----- wifi_softap_dhcps_client_leave -----

  function IndexOfBinding(p: Pool, mac: Mac, a: Addr): (k: nat)
    ensures k <= |p|
    ensures k < |p| ==> p[k].mac == mac && p[k].ip == a
    ensures forall i | 0 <= i < k :: !(p[i].mac == mac && p[i].ip == a)
  {
    if |p| == 0 || (p[0].mac == mac && p[0].ip == a) then 0 else 1 + IndexOfBinding(p[1..], mac, a)
  }

  function ClientLeave(p: Pool, mac: Option<Mac>, ip: Option<Addr>, force: bool): Pool {
    if mac.None? || ip.None? then p
    else
      var k := IndexOfBinding(p, mac.value, ip.value);
      if k == |p| then p
      else if p[k].kind == Static || force then RemoveAt(p, k)
      else p[k := p[k].(state := Offline)]
  }

  // ----- wifi_softap_add_dhcps_lease -----

  // One address per entry already in the list, whatever those entries hold.
  function NthNext(a: Addr, n: nat): Addr
    decreases n
  {
    if n == 0 then a else NthNext(Next(a), n - 1)
  }

  function AddStatic(p: Pool, mac: Mac, c: Config): (Pool, bool) {
    var a := NthNext(c.start, |p|);
    if IndexOfMac(p, mac) < |p| || Below(c.end, a) then (p, false)
    else (Insert(p, Lease(a, mac, c.leaseTime, Static, Online)), true)
  }

  // ----- dhcps_coarse_tmr -----

  // The uint32 timer counts down on dynamic leases only.
  function Aged(l: Lease): Lease {
    if l.kind == Dynamic then l.(timer := if l.timer == 0 then TWO_32 - 1 else l.timer - 1) else l
  }

  function Survivors(p: Pool): (r: Pool)
    ensures |r| <= |p|
  {
    if |p| == 0 then []
    else Survivors(p[..|p| - 1]) + if Aged(p[|p| - 1]).timer == 0 then [] else [Aged(p[|p| - 1])]
  }

  // First entry after the head with the least timer.
  function Oldest(p: Pool): (k: nat)
    requires |p| >= 2
    ensures 1 <= k < |p|
    ensures forall i | 1 <= i < |p| :: p[k].timer <= p[i].timer
    ensures forall i | 1 <= i < k :: p[k].timer < p[i].timer
  {
    if |p| == 2 then 1
    else
      var k := Oldest(p[..|p| - 1]);
      if p[|p| - 1].timer < p[k].timer then |p| - 1 else k
  }

  function KillOldest(p: Pool): Pool
    requires |p| >= 2
  {
    KilledAt(p, Oldest(p))
  }

  // Entry k goes; the tail is marked first.
  function KilledAt(p: Pool, k: nat): Pool
    requires k < |p|
  {
    RemoveAt(p[|p| - 1 := p[|p| - 1].(state := Offline)], k)
  }

  // The survivors are counted in a uint8.
  function Tick(p: Pool): Pool {
    var s := Survivors(p);
    if |s| % 0x100 >= MAX_STATION_NUM then KillOldest(s) else s
  }
}
