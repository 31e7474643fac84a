// What the pool operations of LeasePool mean: the allocator hands out the
// smallest address no other client holds, and every operation keeps the pool
// sorted, inside the range and free of double bindings.

module PoolProperties {
  import opened Machine
  import opened Addresses
  import opened Lists
  import opened LeasePool

  // ----- the pool invariant -----

  predicate RangeOk(c: Config) {
    && SameNet(c.start, c.end) && c.start.o4 <= c.end.o4 <= 254
    && c.start != IPADDR_ANY
    && c.leaseTime >= 1
  }

  predicate InRange(a: Addr, c: Config) {
    SameNet(a, c.start) && c.start.o4 <= a.o4 <= c.end.o4
  }

  ghost predicate StrictlySorted(p: Pool) {
    forall i, j | 0 <= i < j < |p| :: Below(p[i].ip, p[j].ip)
  }

  ghost predicate UniqueMacs(p: Pool) {
    forall i, j | 0 <= i < j < |p| :: p[i].mac != p[j].mac
  }

  ghost predicate AllInRange(p: Pool, c: Config) {
    forall i | 0 <= i < |p| :: InRange(p[i].ip, c)
  }

  ghost predicate TimersRun(p: Pool) {
    forall i | 0 <= i < |p| :: p[i].timer >= 1
  }

  ghost predicate PoolOk(p: Pool, c: Config) {
    RangeOk(c) && StrictlySorted(p) && UniqueMacs(p) && AllInRange(p, c) && TimersRun(p)
  }

  ghost predicate Held(p: Pool, a: Addr) {
    exists i | 0 <= i < |p| :: p[i].ip == a
  }

  ghost predicate HeldByOther(p: Pool, mac: Mac, a: Addr) {
    exists i | 0 <= i < |p| :: p[i].ip == a && p[i].mac != mac
  }

  ghost predicate Knows(p: Pool, mac: Mac) {
    exists i | 0 <= i < |p| :: p[i].mac == mac
  }

  lemma AddressesDistinct(p: Pool)
    requires StrictlySorted(p)
    ensures forall i, j | 0 <= i < j < |p| :: p[i].ip != p[j].ip
  {
    forall i, j | 0 <= i < j < |p| ensures p[i].ip != p[j].ip {
      assert Below(p[i].ip, p[j].ip);
    }
  }

  // ----- insertion and removal -----

  lemma InsertElements(p: Pool, l: Lease)
    ensures |Insert(p, l)| == |p| + 1
    ensures forall x :: x in Insert(p, l) <==> x == l || x in p
  {
    var k := InsertPos(p, l.ip);
    assert p == p[..k] + p[k..];
    assert Insert(p, l)[k] == l;
  }

  lemma InsertSorted(p: Pool, l: Lease)
    requires StrictlySorted(p) && !Held(p, l.ip)
    ensures StrictlySorted(Insert(p, l))
  {
    var k := InsertPos(p, l.ip);
    forall i | 0 <= i < k ensures Below(p[i].ip, l.ip) {
    }
    forall i | k <= i < |p| ensures Below(l.ip, p[i].ip) {
      assert i == k || Below(p[k].ip, p[i].ip);
    }
  }

  lemma InsertUniqueMacs(p: Pool, l: Lease)
    requires UniqueMacs(p) && !Knows(p, l.mac)
    ensures UniqueMacs(Insert(p, l))
  {
    var k := InsertPos(p, l.ip);
    var r := Insert(p, l);
    forall i, j | 0 <= i < j < |r| ensures r[i].mac != r[j].mac {
      var oi, oj := if i < k then i else i - 1, if j < k then j else j - 1;
      if i == k {
        assert p[oj].mac != l.mac;
      } else if j == k {
        assert p[oi].mac != l.mac;
      }
    }
  }

  lemma RemoveElements(p: Pool, k: nat)
    requires UniqueMacs(p) && k < |p|
    ensures forall x :: x in RemoveAt(p, k) <==> x in p && x.mac != p[k].mac
  {
    var r := RemoveAt(p, k);
    forall x | x in r ensures x in p && x.mac != p[k].mac {
      var i :| 0 <= i < |r| && r[i] == x;
      var o := if i < k then i else i + 1;
      assert p[o] == x;
    }
    forall x | x in p && x.mac != p[k].mac ensures x in r {
      var o :| 0 <= o < |p| && p[o] == x;
      assert r[if o < k then o else o - 1] == x;
    }
  }

  lemma RemoveKeepsOrder(p: Pool, k: nat)
    requires k < |p|
    ensures StrictlySorted(p) ==> StrictlySorted(RemoveAt(p, k))
    ensures UniqueMacs(p) ==> UniqueMacs(RemoveAt(p, k))
    ensures TimersRun(p) ==> TimersRun(RemoveAt(p, k))
    ensures forall c | AllInRange(p, c) :: AllInRange(RemoveAt(p, k), c)
  {}

  // ----- the first gap -----

  // Entries of one /24 with rising last octets.
  ghost predicate Rising(p: Pool, net: Addr) {
    && (forall i | 0 <= i < |p| :: SameNet(p[i].ip, net))
    && (forall i, j | 0 <= i < j < |p| :: p[i].ip.o4 < p[j].ip.o4)
  }

  lemma PoolRises(p: Pool, c: Config)
    requires StrictlySorted(p) && AllInRange(p, c)
    ensures Rising(p, c.start)
  {
    forall i, j | 0 <= i < j < |p| ensures p[i].ip.o4 < p[j].ip.o4 {
      assert Below(p[i].ip, p[j].ip);
    }
  }

  // From a, along entries lying at or above a, the scan stops at the least
  // address of the /24 that no entry holds.
  lemma {:induction false} GapIsLeastFree(p: Pool, a: Addr)
    requires Rising(p, a) && forall i | 0 <= i < |p| :: a.o4 <= p[i].ip.o4 <= 254
    ensures var g := Gap(p, a);
            && SameNet(g, a) && a.o4 <= g.o4
            && (p == [] ==> g == a)
            && (p != [] ==> g.o4 <= p[|p| - 1].ip.o4 + 1)
    ensures forall i | 0 <= i < |p| :: p[i].ip != Gap(p, a)
    ensures forall x | SameNet(x, a) && a.o4 <= x.o4 < Gap(p, a).o4 :: Held(p, x)
  {
    if p != [] && p[0].ip == a {
      var q := p[1..];
      var b := Next(a);
      GapIsLeastFree(q, b);
      var g := Gap(q, b);
      assert forall i | 0 < i < |p| :: p[i] == q[i - 1];
      forall x | SameNet(x, a) && a.o4 <= x.o4 < g.o4 ensures Held(p, x) {
        if x.o4 > a.o4 {
          assert Held(q, x);
        }
      }
    }
  }

  lemma GapBeforeOwnEntry(p: Pool, k: nat, c: Config)
    requires PoolOk(p, c) && k <= |p|
    ensures var g := Gap(p[..k], c.start);
            && SameNet(g, c.start) && c.start.o4 <= g.o4
            && (forall x | InRange(x, c) && x.o4 < g.o4 :: Held(p[..k], x))
            && (forall i | 0 <= i < k :: p[i].ip != g)
            && (forall i | k <= i < |p| :: g.o4 <= p[i].ip.o4)
  {
    var q := p[..k];
    PoolRises(p, c);
    assert forall i | 0 <= i < k :: p[i] == q[i];
    GapIsLeastFree(q, c.start);
  }

  // The entries the pass scans before the client's own are all strictly below
  // it, so the gap found there is free of every other client.
  lemma OwnEntryAboveGap(p: Pool, mac: Mac, c: Config)
    requires PoolOk(p, c)
    ensures var k := IndexOfMac(p, mac);
            var g := Gap(p[..k], c.start);
            && SameNet(g, c.start) && c.start.o4 <= g.o4
            && !HeldByOther(p, mac, g)
            && (forall x | InRange(x, c) && x.o4 < g.o4 :: HeldByOther(p, mac, x))
            && (k < |p| ==> g.o4 <= p[k].ip.o4)
  {
    var k := IndexOfMac(p, mac);
    var g := Gap(p[..k], c.start);
    GapBeforeOwnEntry(p, k, c);
    forall x | InRange(x, c) && x.o4 < g.o4 ensures HeldByOther(p, mac, x) {
      var i :| 0 <= i < k && p[..k][i].ip == x;
      assert p[i].ip == x && p[i].mac != mac;
    }
    PoolRises(p, c);
    forall i | 0 <= i < |p| && p[i].mac != mac ensures p[i].ip != g {
      if i > k {
        assert p[k].ip.o4 < p[i].ip.o4;
      }
    }
  }

  // SMALLEST FREE ADDRESS. A client that names no address gets the smallest
  // address of the range, in host order, that no other client holds. It is
  // refused exactly when it is new and every address of the range is held.
  lemma AssignsSmallestFree(p: Pool, mac: Mac, ip: Option<Addr>, c: Config, renew: bool)
    requires PoolOk(p, c) && (ip.None? || ip == Some(IPADDR_ANY))
    ensures var u := ClientUpdate(p, Some(mac), ip, c, renew);
            && !u.renew
            && (u.reply == IPADDR_ANY <==>
                !Knows(p, mac) && forall x | InRange(x, c) :: HeldByOther(p, mac, x))
            && (u.reply == IPADDR_ANY ==> u.pool == p)
            && (u.reply != IPADDR_ANY ==>
                && InRange(u.reply, c) && !HeldByOther(p, mac, u.reply)
                && forall x | InRange(x, c) && Host(x) < Host(u.reply) :: HeldByOther(p, mac, x))
  {
    OwnEntryAboveGap(p, mac, c);
    var k := IndexOfMac(p, mac);
    var g := Gap(p[..k], c.start);
    var u := ClientUpdate(p, Some(mac), ip, c, renew);
    if k < |p| {
      assert p[k].mac == mac;
      assert u.reply == g && InRange(g, c);
    } else if g.o4 > c.end.o4 {
      assert Below(c.end, g);
      assert u.reply == IPADDR_ANY;
    } else {
      assert u.reply == g && InRange(g, c);
    }
    assert InRange(g, c) ==> g != IPADDR_ANY;
  }

  // ----- replacing an entry in place -----

  lemma ReplaceElements(p: Pool, k: nat, l: Lease)
    requires UniqueMacs(p) && k < |p|
    ensures forall x :: x in p[k := l] <==> x == l || (x in p && x.mac != p[k].mac)
  {
    var r := p[k := l];
    assert r[k] == l;
    forall x | x in p && x.mac != p[k].mac ensures x in r {
      var i :| 0 <= i < |p| && p[i] == x;
      assert r[i] == x;
    }
  }

  lemma ReplaceKeepsOk(p: Pool, k: nat, l: Lease, c: Config)
    requires PoolOk(p, c) && k < |p| && l.ip == p[k].ip && l.timer >= 1
    requires l.mac == p[k].mac || !Knows(p, l.mac)
    ensures PoolOk(p[k := l], c)
  {}

  lemma InsertKeepsOk(p: Pool, l: Lease, c: Config)
    requires PoolOk(p, c) && InRange(l.ip, c) && l.timer >= 1
    requires !Held(p, l.ip) && !Knows(p, l.mac)
    ensures PoolOk(Insert(p, l), c)
  {
    InsertSorted(p, l);
    InsertUniqueMacs(p, l);
  }

  lemma RemovedMacIsUnknown(p: Pool, k: nat)
    requires UniqueMacs(p) && k < |p|
    ensures !Knows(RemoveAt(p, k), p[k].mac)
  {}

  // ----- what one update does -----

  // The address requests a well-behaved client sends: none, or one of the range.
  predicate GoodRequest(ip: Option<Addr>, c: Config) {
    ip.None? || ip.value == IPADDR_ANY || ip.value == IPADDR_BROADCAST || InRange(ip.value, c)
  }

  // The pool now holds the new lease, every old lease of another client at
  // another address, and nothing else.
  ghost predicate Rebinds(p: Pool, q: Pool, l: Lease) {
    forall x :: x in q <==> x == l || (x in p && x.mac != l.mac && x.ip != l.ip)
  }

  lemma MoveInEffect(p: Pool, k: nat, l: Lease, c: Config)
    requires PoolOk(p, c) && InRange(l.ip, c) && l.timer >= 1
    requires k <= |p| && (k < |p| ==> p[k].mac == l.mac) && (k == |p| ==> !Knows(p, l.mac))
    requires !HeldByOther(p, l.mac, l.ip)
    ensures var q := Insert(if k < |p| then RemoveAt(p, k) else p, l);
            PoolOk(q, c) && Rebinds(p, q, l)
  {
    var r := if k < |p| then RemoveAt(p, k) else p;
    if k < |p| {
      RemoveKeepsOrder(p, k);
      RemoveElements(p, k);
      RemovedMacIsUnknown(p, k);
    }
    forall i | 0 <= i < |r| ensures r[i].ip != l.ip {
      assert r[i] in p;
      var j :| 0 <= j < |p| && p[j] == r[i];
    }
    InsertKeepsOk(r, l, c);
    InsertElements(r, l);
  }

  lemma TakeOverEffect(p: Pool, i: nat, l: Lease, c: Config)
    requires PoolOk(p, c) && i < |p| && p[i].ip == l.ip && l.timer >= 1
    requires p[i].mac == l.mac || !Knows(p, l.mac)
    ensures PoolOk(p[i := l], c) && Rebinds(p, p[i := l], l)
  {
    ReplaceKeepsOk(p, i, l, c);
    ReplaceElements(p, i, l);
    forall x | x in p ensures x.ip == l.ip <==> x.mac == p[i].mac {
      var j :| 0 <= j < |p| && p[j] == x;
      if i < j {
        assert Below(p[i].ip, p[j].ip);
      } else if j < i {
        assert Below(p[j].ip, p[i].ip);
      }
    }
  }

  lemma TakeOverAndMoveEffect(p: Pool, i: nat, m: nat, l: Lease, c: Config)
    requires PoolOk(p, c) && i < |p| && m < |p| && i != m
    requires p[i].ip == l.ip && p[m].mac == l.mac && l.timer >= 1
    ensures var q := RemoveAt(p[i := l], m);
            PoolOk(q, c) && Rebinds(p, q, l)
  {
    var r := RemoveAt(p, m);
    var i' := if i < m then i else i - 1;
    assert RemoveAt(p[i := l], m) == r[i' := l];
    RemoveKeepsOrder(p, m);
    RemoveElements(p, m);
    RemovedMacIsUnknown(p, m);
    TakeOverEffect(r, i', l, c);
  }

  lemma AssignBinds(p: Pool, mac: Mac, c: Config)
    requires PoolOk(p, c)
    ensures var (q, reply) := Assign(p, mac, c);
            && PoolOk(q, c)
            && (reply == IPADDR_ANY ==> q == p)
            && (reply != IPADDR_ANY ==>
                InRange(reply, c) && Rebinds(p, q, Lease(reply, mac, c.leaseTime, Dynamic, Online)))
  {
    OwnEntryAboveGap(p, mac, c);
    var k := IndexOfMac(p, mac);
    var g := Gap(p[..k], c.start);
    if k < |p| || !Below(c.end, g) {
      assert InRange(g, c);
      MoveInEffect(p, k, Lease(g, mac, c.leaseTime, Dynamic, Online), c);
    }
  }

  lemma ClaimBinds(p: Pool, mac: Mac, a: Addr, c: Config)
    requires PoolOk(p, c) && InRange(a, c)
    ensures var u := Claim(p, mac, a, c);
            && PoolOk(u.pool, c)
            && (u.reply == IPADDR_ANY ==> u.pool == p)
            && (u.reply != IPADDR_ANY ==>
                && u.reply == a
                && Rebinds(p, u.pool, Lease(a, mac, c.leaseTime, if u.renew then Dynamic else Static, Online)))
  {
    var m, i := IndexOfMac(p, mac), LastIndexOfIp(p, a);
    var l := Lease(a, mac, c.leaseTime, Static, Online);
    if m < |p| && i == m {
      TakeOverEffect(p, m, l.(kind := Dynamic), c);
    } else if i == |p| {
      MoveInEffect(p, m, l, c);
    } else if p[i].state == Offline && m < |p| {
      TakeOverAndMoveEffect(p, i, m, l, c);
    } else if p[i].state == Offline {
      TakeOverEffect(p, i, l, c);
    }
  }

  // EFFECT OF AN UPDATE. A refusal changes nothing; an accepted request binds
  // the client, ONLINE and with a fresh timer, to the replied address, drops its
  // old lease and the OFFLINE lease it took over, and leaves every other lease
  // as it was. Either way the pool invariant is kept.
  lemma UpdateBinds(p: Pool, mac: Mac, ip: Option<Addr>, c: Config, renew: bool)
    requires PoolOk(p, c) && GoodRequest(ip, c)
    ensures var u := ClientUpdate(p, Some(mac), ip, c, renew);
            && PoolOk(u.pool, c)
            && (u.reply == IPADDR_ANY ==> u.pool == p)
            && (u.reply != IPADDR_ANY ==>
                var asked := ip.Some? && ip.value != IPADDR_ANY;
                && InRange(u.reply, c)
                && (asked ==> u.reply == ip.value)
                && Rebinds(p, u.pool, Lease(u.reply, mac, c.leaseTime,
                                            if asked && !u.renew then Static else Dynamic, Online)))
  {
    if ip.None? || ip == Some(IPADDR_ANY) {
      AssignBinds(p, mac, c);
    } else if ip != Some(IPADDR_BROADCAST) {
      ClaimBinds(p, mac, ip.value, c);
    }
  }

  // WHEN A NAMED ADDRESS IS REFUSED: exactly when another client holds it and
  // has not gone OFFLINE. The renew flag says the client already held it.
  lemma ClaimRefusedIff(p: Pool, mac: Mac, a: Addr, c: Config, renew: bool)
    requires PoolOk(p, c) && InRange(a, c)
    ensures var u := ClientUpdate(p, Some(mac), Some(a), c, renew);
            && (u.reply == IPADDR_ANY <==>
                exists x :: x in p && x.ip == a && x.mac != mac && x.state == Online)
            && (u.renew <==> exists x :: x in p && x.ip == a && x.mac == mac)
  {
    var u := ClientUpdate(p, Some(mac), Some(a), c, renew);
    var m, i := IndexOfMac(p, mac), LastIndexOfIp(p, a);
    assert a != IPADDR_ANY;
    forall x | x in p && x.ip == a ensures i < |p| && x == p[i] {
      AddressesDistinct(p);
      var j :| 0 <= j < |p| && p[j] == x;
    }
    if i < |p| {
      assert p[i] in p;
    }
    if m < |p| && i < |p| && p[i].mac == mac {
      assert i == m;
    }
  }

  // ----- addresses from outside the range -----

  predicate Outside(a: Addr, c: Config) {
    a != IPADDR_ANY && a != IPADDR_BROADCAST && !InRange(a, c)
  }

  // Where the claim is inserted: the pool without the client's own lease.
  function WithoutClient(p: Pool, mac: Mac): Pool {
    var m := IndexOfMac(p, mac);
    if m < |p| then RemoveAt(p, m) else p
  }

  lemma WithoutClientOk(p: Pool, mac: Mac, c: Config)
    requires PoolOk(p, c)
    ensures var q := WithoutClient(p, mac);
            && PoolOk(q, c) && !Knows(q, mac)
            && forall x :: x in q <==> x in p && x.mac != mac
  {
    var m := IndexOfMac(p, mac);
    if m < |p| {
      RemoveKeepsOrder(p, m);
      RemoveElements(p, m);
      RemovedMacIsUnknown(p, m);
    } else {
      forall x | x in p ensures x.mac != mac {
        var i :| 0 <= i < |p| && p[i] == x;
      }
    }
  }

  lemma ClaimOutsideIs(p: Pool, mac: Mac, a: Addr, c: Config, renew: bool)
    requires AllInRange(p, c) && Outside(a, c)
    ensures ClientUpdate(p, Some(mac), Some(a), c, renew) ==
              if !Knows(p, mac) && Below(c.end, a) then Update(p, IPADDR_ANY, false)
              else Update(Insert(WithoutClient(p, mac), Lease(a, mac, c.leaseTime, Static, Online)), a, false)
  {
    assert LastIndexOfIp(p, a) == |p|;
    assert Knows(p, mac) <==> IndexOfMac(p, mac) < |p|;
  }

  lemma InsertOutside(p: Pool, mac: Mac, l: Lease, c: Config)
    requires PoolOk(p, c) && Outside(l.ip, c) && l.mac == mac
    ensures var q := Insert(WithoutClient(p, mac), l);
            Rebinds(p, q, l) && !PoolOk(q, c)
  {
    var q := Insert(WithoutClient(p, mac), l);
    WithoutClientOk(p, mac, c);
    InsertElements(WithoutClient(p, mac), l);
    forall x | x in p ensures x.ip != l.ip {
      var i :| 0 <= i < |p| && p[i] == x;
    }
    assert l in q;
    var i :| 0 <= i < |q| && q[i] == l;
    assert !InRange(q[i].ip, c);
  }

  // A claim of an address outside the range is refused exactly for an unknown
  // client and an address that looks larger than the end. Otherwise it is bound,
  // and the pool is no longer well formed.
  lemma ClaimOutside(p: Pool, mac: Mac, a: Addr, c: Config, renew: bool)
    requires PoolOk(p, c) && Outside(a, c)
    ensures var u := ClientUpdate(p, Some(mac), Some(a), c, renew);
            var l := Lease(a, mac, c.leaseTime, Static, Online);
            && !u.renew
            && if !Knows(p, mac) && Below(c.end, a) then u.reply == IPADDR_ANY && u.pool == p
               else
                 && u.reply == a && u.pool == Insert(WithoutClient(p, mac), l)
                 && Rebinds(p, u.pool, l) && !PoolOk(u.pool, c)
  {
    ClaimOutsideIs(p, mac, a, c, renew);
    InsertOutside(p, mac, Lease(a, mac, c.leaseTime, Static, Online), c);
  }

  // What an update needs to keep the pool well formed: no address, one of the
  // range, or a claim that is refused because client and address are strange.
  ghost predicate KeepsPool(p: Pool, mac: Mac, ip: Option<Addr>, c: Config) {
    GoodRequest(ip, c) || (!Knows(p, mac) && Below(c.end, ip.value))
  }

  lemma UpdateKeepsOkIff(p: Pool, mac: Mac, ip: Option<Addr>, c: Config, renew: bool)
    requires PoolOk(p, c)
    ensures PoolOk(ClientUpdate(p, Some(mac), ip, c, renew).pool, c) <==> KeepsPool(p, mac, ip, c)
  {
    if GoodRequest(ip, c) {
      UpdateBinds(p, mac, ip, c, renew);
    } else {
      ClaimOutside(p, mac, ip.value, c, renew);
    }
  }

  // HOW BADLY IT FAILS. Once one client has claimed an address below the range,
  // any two others that ask for any address both get the first one of the range,
  // and both hold it.
  lemma OutsideClaimDoubleBinds(p: Pool, a: Addr, c: Config, m1: Mac, m2: Mac, m3: Mac, ip: Option<Addr>, renew: bool)
    requires PoolOk(p, c) && Outside(a, c) && Below(a, c.start)
    requires m1 != m2 && m2 != m3 && m1 != m3 && (ip.None? || ip == Some(IPADDR_ANY))
    ensures var u1 := ClientUpdate(p, Some(m1), Some(a), c, renew);
            var u2 := ClientUpdate(u1.pool, Some(m2), ip, c, u1.renew);
            var u3 := ClientUpdate(u2.pool, Some(m3), ip, c, u2.renew);
            && u2.reply == c.start && u3.reply == c.start
            && Lease(c.start, m2, c.leaseTime, Dynamic, Online) in u3.pool
            && Lease(c.start, m3, c.leaseTime, Dynamic, Online) in u3.pool
  {
    var u1 := ClientUpdate(p, Some(m1), Some(a), c, renew);
    ClaimStandsFirst(p, a, c, m1, renew);
    TwoBehind(u1.pool, c, m2, m3, ip, u1.renew);
  }

  // A claimed address below the range stands first in the list.
  lemma ClaimStandsFirst(p: Pool, a: Addr, c: Config, mac: Mac, renew: bool)
    requires PoolOk(p, c) && Outside(a, c) && Below(a, c.start)
    ensures var q := ClientUpdate(p, Some(mac), Some(a), c, renew).pool;
            |q| > 0 && q[0].ip == a && q[0].mac == mac
  {
    ClaimOutside(p, mac, a, c, renew);
    WithoutClientOk(p, mac, c);
    InsertLowest(WithoutClient(p, mac), Lease(a, mac, c.leaseTime, Static, Online), c);
  }

  lemma InsertLowest(q: Pool, l: Lease, c: Config)
    requires AllInRange(q, c) && Below(l.ip, c.start)
    ensures |Insert(q, l)| > 0 && Insert(q, l)[0] == l
  {
    assert |q| > 0 ==> InRange(q[0].ip, c);
  }

  // Behind an entry below the range no held address is seen.
  lemma UpdateBehind(p: Pool, mac: Mac, ip: Option<Addr>, c: Config, renew: bool)
    requires |p| > 0 && p[0].mac != mac && Below(p[0].ip, c.start) && !Below(c.end, c.start)
    requires ip.None? || ip == Some(IPADDR_ANY)
    ensures var l := Lease(c.start, mac, c.leaseTime, Dynamic, Online);
            var u := ClientUpdate(p, Some(mac), ip, c, renew);
            && u.reply == c.start && |u.pool| > 0 && u.pool[0] == p[0] && l in u.pool
            && forall x | x in p && x.mac != mac :: x in u.pool
  {
    var k := IndexOfMac(p, mac);
    FirstGap(p, c.start, k);
    if k < |p| {
      OthersStay(p, k, mac);
      InsertBehind(RemoveAt(p, k), Lease(c.start, mac, c.leaseTime, Dynamic, Online));
    } else {
      InsertBehind(p, Lease(c.start, mac, c.leaseTime, Dynamic, Online));
    }
  }

  lemma TwoBehind(p: Pool, c: Config, m2: Mac, m3: Mac, ip: Option<Addr>, renew: bool)
    requires |p| > 0 && p[0].mac != m2 && p[0].mac != m3 && m2 != m3
    requires Below(p[0].ip, c.start) && !Below(c.end, c.start) && (ip.None? || ip == Some(IPADDR_ANY))
    ensures var u2 := ClientUpdate(p, Some(m2), ip, c, renew);
            var u3 := ClientUpdate(u2.pool, Some(m3), ip, c, u2.renew);
            && u2.reply == c.start && u3.reply == c.start
            && Lease(c.start, m2, c.leaseTime, Dynamic, Online) in u3.pool
            && Lease(c.start, m3, c.leaseTime, Dynamic, Online) in u3.pool
  {
    UpdateBehind(p, m2, ip, c, renew);
    var u2 := ClientUpdate(p, Some(m2), ip, c, renew);
    UpdateBehind(u2.pool, m3, ip, c, u2.renew);
  }

  lemma OthersStay(p: Pool, k: nat, mac: Mac)
    requires 0 < k < |p| && p[k].mac == mac
    ensures |RemoveAt(p, k)| > 0 && RemoveAt(p, k)[0] == p[0]
    ensures forall x | x in p && x.mac != mac :: x in RemoveAt(p, k)
  {
    RemoveAtElements(p, k);
    forall x | x in p && x.mac != mac
      ensures x in RemoveAt(p, k)
    {
      var i :| 0 <= i < |p| && p[i] == x;
      assert RemoveAt(p, k)[if i < k then i else i - 1] == x;
    }
  }

  lemma InsertBehind(q: Pool, l: Lease)
    requires |q| > 0 && Below(q[0].ip, l.ip)
    ensures Insert(q, l)[0] == q[0]
    ensures forall x :: x in Insert(q, l) <==> x == l || x in q
  {
    InsertAtMembers(q, InsertPos(q, l.ip), l);
  }

  lemma FirstGap(p: Pool, a: Addr, k: nat)
    requires 0 < k <= |p| && p[0].ip != a
    ensures Gap(p[..k], a) == a
  {}

  // Such a range, such a claim.
  lemma OutsideClaimExample(p: Pool, renew: bool)
    requires |p| == 0
    ensures var c := Config(Addr(192, 168, 4, 100), Addr(192, 168, 4, 150), 120);
            var u1 := ClientUpdate(p, Some(1), Some(Addr(192, 168, 4, 50)), c, renew);
            var u2 := ClientUpdate(u1.pool, Some(2), None, c, u1.renew);
            var u3 := ClientUpdate(u2.pool, Some(3), None, c, u2.renew);
            PoolOk(p, c) && u2.reply == c.start && u3.reply == c.start
  {
    OutsideClaimDoubleBinds(p, Addr(192, 168, 4, 50), Config(Addr(192, 168, 4, 100), Addr(192, 168, 4, 150), 120), 1, 2, 3, None, renew);
  }
}
