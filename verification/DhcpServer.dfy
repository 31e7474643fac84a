// The DHCP server's state as the source keeps it: a hand-linked list of lease
// records updated in place. Every operation is proved to compute the pool
// function of the same name in LeasePool. A list_node and the dhcps_pool
// record it owns are always allocated and freed together; here they are one
// node.

module DhcpServer {
  import opened Machine
  import opened Addresses
  import opened Lists
  import P = LeasePool
  import opened PoolProperties
  import opened PoolRuns
  import opened DhcpMessages
  import R = LeaseRange

  type Lease = P.Lease
  type Mac = P.Mac
  type ListNode = Node<Lease>

  const DHCPS_LEASE_TIME_DEF := 120

  // ----- node_insert_to_list, node_remove_from_list -----

  // Insert before the first record with a larger raw address.
  method NodeInsert(head: Node?<Lease>, pinsert: ListNode, ghost ns: seq<ListNode>, ghost p: P.Pool)
    returns (h: Node?<Lease>)
    requires Linked(head, ns) && Carries(ns, p) && pinsert !in ns && pinsert.pnext == null
    modifies ns`pnext, pinsert`pnext
    ensures Linked(h, InsertAt(ns, P.InsertPos(p, pinsert.data.ip), pinsert))
  {
    ghost var k := P.InsertPos(p, pinsert.data.ip);
    h := head;
    if head == null {
      h := pinsert;
    } else if Below(pinsert.data.ip, head.data.ip) {
      pinsert.pnext := head;
      h := pinsert;
    } else {
      var q := head;
      ghost var i := 0;
      while q.pnext != null
        invariant i < |ns| && q == ns[i] && i < k
        invariant pinsert.pnext == null
        invariant forall j {:trigger ns[j].pnext} | 0 <= j < |ns| :: ns[j].pnext == NodeAt(ns, j + 1)
        decreases |ns| - i
      {
        assert q.pnext == ns[i + 1] && q.pnext.data == p[i + 1];
        if Below(pinsert.data.ip, q.pnext.data.ip) {
          pinsert.pnext := q.pnext;
          q.pnext := pinsert;
          break;
        }
        q := q.pnext;
        i := i + 1;
      }
      assert NodeAt(ns, i + 1) == null ==> i + 1 == |ns|;
      assert k == i + 1;
      if q.pnext == null {
        q.pnext := pinsert;
      }
    }
    LinkedInsert(h, ns, k, pinsert);
  }

  // Unlink a node of the list and clear its pnext.
  method NodeRemove(head: Node?<Lease>, pdelete: ListNode, ghost ns: seq<ListNode>, ghost k: nat)
    returns (h: Node?<Lease>)
    requires Linked(head, ns) && k < |ns| && ns[k] == pdelete
    modifies ns`pnext
    ensures Linked(h, RemoveAt(ns, k)) && pdelete.pnext == null
  {
    h := head;
    if head == pdelete {
      h := pdelete.pnext;
      pdelete.pnext := null;
    } else {
      var p := head;
      ghost var i := 0;
      while p != null
        invariant i <= |ns| && p == NodeAt(ns, i) && i != k && k > 0
        invariant forall j {:trigger ns[j].pnext} | 0 <= j < |ns| && j != k - 1 && j != k :: ns[j].pnext == NodeAt(ns, j + 1)
        invariant ns[k - 1].pnext == NodeAt(ns, if i > k then k + 1 else k)
        invariant pdelete.pnext == if i > k then null else NodeAt(ns, k + 1)
        decreases |ns| - i
      {
        if p.pnext == pdelete {
          assert i + 1 == k;
          p.pnext := pdelete.pnext;
          pdelete.pnext := null;
          i := i + 1;
        }
        p := p.pnext;
        i := i + 1;
      }
    }
    LinkedRemove(h, ns, k);
  }

  class Server {
    var plist: Node?<Lease>
    var enable: bool
    var startIp: Addr
    var endIp: Addr
    var leaseTime: uint32
    var renew: bool
    var clientAddress: Addr

    ghost var nodes: seq<ListNode>   // the list, head first
    ghost var leases: P.Pool         // and its records
    ghost var repr: set<ListNode>    // nodes the list may reach

    ghost predicate ListShape()
      reads this, nodes
    {
      && Linked(plist, nodes) && Carries(nodes, leases)
      && forall i | 0 <= i < |nodes| :: nodes[i] in repr
    }

    // No client has two leases, whatever the operations are called with.
    ghost predicate Valid()
      reads this, nodes
    {
      ListShape() && UniqueMacs(leases)
    }

    // The server before its first start.
    constructor ()
      ensures Valid() && |leases| == 0 && repr == {} && !enable && !renew && clientAddress == IPADDR_ANY
      ensures leaseTime == DHCPS_LEASE_TIME_DEF
    {
      plist, enable, startIp, endIp := null, false, IPADDR_ANY, IPADDR_ANY;
      leaseTime, renew, clientAddress := DHCPS_LEASE_TIME_DEF, false, IPADDR_ANY;
      nodes, leases, repr := [], [], {};
    }

    function Cfg(): P.Config
      reads this
    {
      P.Config(startIp, endIp, leaseTime)
    }

    method InsertNode(pinsert: ListNode)
      requires ListShape() && pinsert !in nodes && pinsert.pnext == null
      modifies `plist, `nodes, `leases, `repr, repr`pnext, pinsert`pnext
      ensures ListShape() && leases == P.Insert(old(leases), pinsert.data)
      ensures repr == old(repr) + {pinsert}
      ensures nodes == InsertAt(old(nodes), P.InsertPos(old(leases), pinsert.data.ip), pinsert)
    {
      ghost var k := P.InsertPos(leases, pinsert.data.ip);
      plist := NodeInsert(plist, pinsert, nodes, leases);
      CarriesInsert(nodes, leases, k, pinsert);
      nodes := InsertAt(nodes, k, pinsert);
      leases := P.Insert(leases, pinsert.data);
      InsertAtMembers(old(nodes), k, pinsert);
      repr := repr + {pinsert};
    }

    method RemoveNode(pdelete: ListNode, ghost k: nat)
      requires ListShape() && k < |nodes| && nodes[k] == pdelete
      modifies `plist, `nodes, `leases, repr`pnext
      ensures ListShape() && leases == RemoveAt(old(leases), k)
      ensures pdelete !in nodes && pdelete.pnext == null
      ensures nodes == RemoveAt(old(nodes), k)
    {
      plist := NodeRemove(plist, pdelete, nodes, k);
      CarriesRemove(nodes, leases, k);
      DistinctRemove(nodes, k);
      RemoveAtElements(nodes, k);
      nodes := RemoveAt(nodes, k);
      leases := RemoveAt(leases, k);
    }

    // Overwrite a record in place.
    method SetRecord(n: ListNode, ghost k: nat, l: Lease)
      requires ListShape() && k < |nodes| && nodes[k] == n
      modifies `leases, n`data
      ensures ListShape() && leases == old(leases)[k := l]
    {
      n.data := l;
      leases := leases[k := l];
    }

    // ----- wifi_softap_dhcps_client_update -----

    // The pass over the list: the client's node, the last node holding the
    // address, and, when no address was asked for, the first gap.
    method Scan(bssid: Mac, ip: Option<Addr>)
      returns (pmacNode: Node?<Lease>, pipNode: Node?<Lease>, start: Addr, flag: bool)
      requires ListShape() && OnlyAtIndex(leases, bssid)
      ensures pmacNode == NodeAt(nodes, P.IndexOfMac(leases, bssid))
      ensures ip.Some? ==> !flag && pipNode == NodeAt(nodes, P.LastIndexOfIp(leases, ip.value))
      ensures ip.None? ==> pipNode == null && start == P.Gap(leases[..P.IndexOfMac(leases, bssid)], startIp)
      ensures ip.None? && !flag ==> pmacNode == null
    {
      ghost var m := P.IndexOfMac(leases, bssid);
      var pback := plist;
      ghost var n := 0;
      pmacNode, pipNode, start, flag := null, null, startIp, false;
      while pback != null
        invariant n <= |nodes| && pback == NodeAt(nodes, n)
        invariant pmacNode == if m < n then nodes[m] else null
        invariant ip.Some? ==> !flag && pipNode == HolderBefore(nodes, leases, n, ip.value)
        invariant ip.None? ==> pipNode == null && n <= m
        invariant ip.None? ==> P.Gap(leases[..m], startIp) == if flag then start else P.Gap(leases[n..m], start)
        decreases |nodes| - n
      {
        var entry := pback.data;
        assert entry == leases[n];
        HolderStep(nodes, leases, n, ip);
        GapStep(leases, n, m, start);
        if entry.mac == bssid {
          assert n == m;
          pmacNode := pback;
          if ip.None? {
            flag := true;
            break;
          }
        }
        if ip.Some? {
          if entry.ip == ip.value {
            pipNode := pback;
          }
        } else if !flag {
          if entry.ip != start {
            flag := true;
          } else {
            start := Next(start);
          }
        }
        pback := pback.pnext;
        n := n + 1;
      }
      assert leases[..|leases|] == leases;
    }

    method ClientUpdate(bssid: Option<Mac>, ciaddr: Option<Addr>) returns (reply: Addr)
      requires Valid()
      modifies `plist, `nodes, `leases, `repr, `renew, repr
      ensures Valid()
      ensures fresh(repr - old(repr))
      ensures var u := P.ClientUpdate(old(leases), bssid, ciaddr, Cfg(), old(renew));
              leases == u.pool && reply == u.reply && renew == u.renew
    {
      if bssid.None? {
        return IPADDR_ANY;
      }
      var mac, ip, kind := bssid.value, ciaddr, P.Dynamic;
      if ip.Some? {
        if ip.value == IPADDR_BROADCAST {
          return IPADDR_ANY;
        } else if ip.value == IPADDR_ANY {
          ip := None;
        } else {
          kind := P.Static;
        }
      }
      UpdateKeepsMacs(leases, mac, ciaddr, Cfg(), renew);
      assert OnlyAtIndex(leases, mac);
      renew := false;
      reply := Serve(mac, ip, kind);
    }

    // The pass over the list and the four branches after it.
    method Serve(mac: Mac, ip: Option<Addr>, kind: P.LeaseType) returns (reply: Addr)
      requires ListShape() && OnlyAtIndex(leases, mac) && !renew
      requires kind == if ip.Some? then P.Static else P.Dynamic
      modifies `plist, `nodes, `leases, `repr, `renew, repr
      ensures ListShape()
      ensures fresh(repr - old(repr))
      ensures ip.None? ==> (leases, reply) == P.Assign(old(leases), mac, Cfg()) && !renew
      ensures ip.Some? ==> P.Update(leases, reply, renew) == P.Claim(old(leases), mac, ip.value, Cfg())
    {
      var pmacNode, pipNode, start, flag := Scan(mac, ip);
      if ip.None? && !flag {
        if Below(endIp, start) {
          return IPADDR_ANY;
        }
        flag := true;
      }
      if pmacNode != null {
        if pipNode != null {
          reply := RebindNode(mac, pmacNode, pipNode, ip.value);
        } else {
          reply := MoveNode(mac, pmacNode, if ip.Some? then ip.value else start, kind, P.IndexOfMac(leases, mac));
        }
      } else if pipNode != null {
        reply := TakeOverNode(mac, pipNode, ip.value);
      } else {
        reply := AddNode(mac, if ip.Some? then ip.value else start, kind);
      }
    }

    // A known client; some node holds the address it names.
    method RebindNode(mac: Mac, pmacNode: ListNode, pipNode: ListNode, ghost a: Addr) returns (reply: Addr)
      requires ListShape() && !renew
      requires P.IndexOfMac(leases, mac) < |nodes| && pmacNode == nodes[P.IndexOfMac(leases, mac)]
      requires P.LastIndexOfIp(leases, a) < |nodes| && pipNode == nodes[P.LastIndexOfIp(leases, a)]
      modifies `plist, `nodes, `leases, `repr, `renew, repr
      ensures ListShape() && repr == old(repr)
      ensures var u := P.Claim(old(leases), mac, a, Cfg());
              leases == u.pool && reply == u.reply && renew == u.renew
    {
      ghost var m, i := P.IndexOfMac(leases, mac), P.LastIndexOfIp(leases, a);
      if pipNode != pmacNode {
        if pipNode.data.state != P.Offline {
          return IPADDR_ANY;
        }
        ReplaceOwner(mac, pmacNode, pipNode, m, i);
      } else {
        renew := true;
        SetRecord(pipNode, i, pipNode.data.(timer := leaseTime, kind := P.Dynamic, state := P.Online));
      }
      reply := pipNode.data.ip;
    }

    // Drop the client's node and hand it the other one.
    method ReplaceOwner(mac: Mac, pmacNode: ListNode, pipNode: ListNode, ghost m: nat, ghost i: nat)
      requires ListShape() && m < |nodes| && i < |nodes| && m != i
      requires pmacNode == nodes[m] && pipNode == nodes[i]
      modifies `plist, `nodes, `leases, repr
      ensures ListShape() && repr == old(repr)
      ensures pipNode.data.ip == old(pipNode.data.ip)
      ensures leases == RemoveAt(old(leases)[i := P.Lease(old(leases)[i].ip, mac, leaseTime, P.Static, P.Online)], m)
    {
      var bound := pipNode.data.(mac := mac, timer := leaseTime, kind := P.Static, state := P.Online);
      RemoveAfterUpdate(leases, i, m, bound);
      DropNode(pmacNode, pipNode, m, i);
      SetRecord(pipNode, if i < m then i else i - 1, bound);
    }

    // Unlink node m; node i moves up if it stood behind.
    method DropNode(n: ListNode, ghost other: ListNode, ghost m: nat, ghost i: nat)
      requires ListShape() && m < |nodes| && i < |nodes| && m != i && n == nodes[m] && other == nodes[i]
      modifies `plist, `nodes, `leases, repr`pnext
      ensures ListShape() && leases == RemoveAt(old(leases), m)
      ensures var j := if i < m then i else i - 1; j < |nodes| && nodes[j] == other
    {
      RemoveAtElements(nodes, m);
      RemoveNode(n, m);
    }

    // A known client moves to an address no node holds.
    method MoveNode(mac: Mac, pmacNode: ListNode, a: Addr, kind: P.LeaseType, ghost m: nat) returns (reply: Addr)
      requires ListShape() && m < |nodes| && pmacNode == nodes[m] && pmacNode.data.mac == mac
      modifies `plist, `nodes, `leases, `repr, repr
      ensures ListShape() && repr == old(repr)
      ensures leases == P.Insert(RemoveAt(old(leases), m), P.Lease(a, mac, leaseTime, kind, P.Online))
      ensures reply == a
    {
      TakeOut(pmacNode, m, pmacNode.data.(ip := a, timer := leaseTime, kind := kind, state := P.Online));
      InsertNode(pmacNode);
      assert repr == old(repr);
      reply := a;
    }

    // Overwrite a record and unlink its node.
    method TakeOut(n: ListNode, ghost m: nat, l: Lease)
      requires ListShape() && m < |nodes| && nodes[m] == n
      modifies `plist, `nodes, `leases, repr
      ensures ListShape() && leases == RemoveAt(old(leases), m)
      ensures n !in nodes && n.pnext == null && n.data == l
    {
      RemoveUpdated(leases, m, l);
      SetRecord(n, m, l);
      RemoveNode(n, m);
    }

    // A new client asks for an address some node holds.
    method TakeOverNode(mac: Mac, pipNode: ListNode, ghost a: Addr) returns (reply: Addr)
      requires ListShape() && !renew && P.IndexOfMac(leases, mac) == |leases|
      requires P.LastIndexOfIp(leases, a) < |nodes| && pipNode == nodes[P.LastIndexOfIp(leases, a)]
      modifies `leases, repr
      ensures ListShape()
      ensures var u := P.Claim(old(leases), mac, a, Cfg());
              leases == u.pool && reply == u.reply && renew == u.renew
    {
      var l := pipNode.data;
      if l.state != P.Offline {
        return IPADDR_ANY;
      }
      ghost var i := P.LastIndexOfIp(leases, a);
      SetRecord(pipNode, i, l.(mac := mac, timer := leaseTime, kind := P.Static, state := P.Online));
      reply := l.ip;
    }

    // A new client gets an address no node holds, unless it lies past the end.
    method AddNode(mac: Mac, a: Addr, kind: P.LeaseType) returns (reply: Addr)
      requires ListShape()
      modifies `plist, `nodes, `leases, `repr, repr
      ensures ListShape() && fresh(repr - old(repr))
      ensures if Below(endIp, a) then leases == old(leases) && reply == IPADDR_ANY
              else leases == P.Insert(old(leases), P.Lease(a, mac, leaseTime, kind, P.Online)) && reply == a
    {
      if Below(endIp, a) {
        return IPADDR_ANY;
      }
      var node := new Node(P.Lease(a, mac, leaseTime, kind, P.Online));
      InsertNode(node);
      reply := a;
    }

    // ----- wifi_softap_dhcps_client_leave -----

    // cleared reports that the station's address was reset.
    method ClientLeave(bssid: Option<Mac>, ip: Option<Addr>, force: bool) returns (cleared: bool)
      requires Valid()
      modifies `plist, `nodes, `leases, repr
      ensures Valid() && repr == old(repr)
      ensures leases == P.ClientLeave(old(leases), bssid, ip, force)
      ensures cleared <==> exists l :: l in old(leases) && bssid == Some(l.mac) && ip == Some(l.ip)
    {
      cleared := false;
      if bssid.None? || ip.None? {
        return;
      }
      ghost var k := P.IndexOfBinding(leases, bssid.value, ip.value);
      assert k < |leases| ==> leases[k] in leases;
      var pback := plist;
      ghost var n := 0;
      while pback != null
        invariant n <= |nodes| && pback == NodeAt(nodes, n) && n <= k && !cleared
        decreases |nodes| - n
      {
        var entry := pback.data;
        if entry.mac == bssid.value && entry.ip == ip.value {
          assert n == k;
          if entry.kind == P.Static || force {
            RemoveKeepsOrder(leases, k);
            RemoveNode(pback, k);
          } else {
            SetRecord(pback, k, entry.(state := P.Offline));
          }
          cleared := true;
          break;
        }
        pback := pback.pnext;
        n := n + 1;
      }
    }

    // ----- wifi_softap_add_dhcps_lease -----

    method AddStatic(mac: Mac) returns (ok: bool)
      requires Valid()
      modifies `plist, `nodes, `leases, `repr, repr
      ensures Valid() && fresh(repr - old(repr))
      ensures (leases, ok) == P.AddStatic(old(leases), mac, Cfg())
    {
      StepKeepsMacs(leases, renew, AddStep(mac), Cfg());
      var start := startIp;
      var pback := plist;
      ghost var n := 0;
      while pback != null
        invariant n <= |nodes| && pback == NodeAt(nodes, n) && n <= P.IndexOfMac(leases, mac)
        invariant P.NthNext(start, |leases| - n) == P.NthNext(startIp, |leases|)
        decreases |nodes| - n
      {
        if pback.data.mac == mac {
          return false;
        }
        start := Next(start);
        pback := pback.pnext;
        n := n + 1;
      }
      if Below(endIp, start) {
        return false;
      }
      var node := new Node(P.Lease(start, mac, leaseTime, P.Static, P.Online));
      InsertNode(node);
      ok := true;
    }

    // ----- dhcps_coarse_tmr -----

    method CoarseTimer()
      requires Valid()
      modifies `plist, `nodes, `leases, repr
      ensures Valid() && repr == old(repr)
      ensures leases == P.Tick(old(leases))
    {
      TickEffect(leases, Cfg());
      var num := AgeNodes();
      if num >= P.MAX_STATION_NUM {
        KillOldest();
      }
    }

    // Count every lease down, unlink the expired ones, count the others in a uint8.
    method AgeNodes() returns (num: byte)
      requires ListShape()
      modifies `plist, `nodes, `leases, repr
      ensures ListShape() && repr == old(repr)
      ensures leases == P.Survivors(old(leases)) && num == |leases| % 0x100
    {
      num := 0;
      var pnode := plist;
      ghost var p := leases;
      ghost var n, k := 0, 0;
      while pnode != null
        invariant ListShape() && repr == old(repr) && n <= |p|
        invariant Aging(p, n) == (leases, k)
        invariant pnode == NodeAt(nodes, k) && num == k % 0x100
        decreases |p| - n
      {
        pnode, num, k := AgeOne(pnode, num, p, n, k);
        n := n + 1;
      }
      AgedAll(p, n, leases, k);
    }

    // The list p after n steps is at its k-th node.
    method AgeOne(pback: ListNode, count: byte, ghost p: P.Pool, ghost n: nat, ghost k: nat)
      returns (pnode: Node?<Lease>, num: byte, ghost k': nat)
      requires ListShape() && k < |nodes| && pback == nodes[k] && count == k % 0x100
      requires n < |p| && Aging(p, n) == (leases, k)
      modifies `plist, `nodes, `leases, repr
      ensures ListShape() && repr == old(repr)
      ensures Aging(p, n + 1) == (leases, k')
      ensures pnode == NodeAt(nodes, k') && num == k' % 0x100
    {
      num, k' := count, k;
      AgingUnfold(p, n, leases, k);
      if pback.data.kind == P.Dynamic {
        var t := pback.data.timer;
        RemoveUpdated(leases, k, P.Aged(pback.data));
        SetRecord(pback, k, pback.data.(timer := if t == 0 then TWO_32 - 1 else t - 1));
      }
      if pback.data.timer == 0 {
        pnode := pback.pnext;
        RemoveAtElements(nodes, k);
        RemoveNode(pback, k);
      } else {
        pnode := pback.pnext;
        CountStep(k);
        num := (num + 1) % 0x100;
        k' := k + 1;
      }
    }

    // kill_oldest_dhcps_pool
    method KillOldest()
      requires ListShape() && |nodes| >= 2
      modifies `nodes, `leases, repr
      ensures ListShape() && repr == old(repr)
      ensures leases == P.KillOldest(old(leases))
    {
      ghost var k;
      var minpre, minp, tail;
      minpre, minp, tail, k := FindOldest();
      UnlinkAndMark(minpre, minp, tail, k);
    }

    // The search for the least timer starts behind the head.
    method FindOldest() returns (minpre: ListNode, minp: ListNode, tail: ListNode, ghost k: nat)
      requires ListShape() && |nodes| >= 2
      ensures k == P.Oldest(leases) && minpre == nodes[k - 1] && minp == nodes[k] && tail == nodes[|nodes| - 1]
    {
      var pre := plist;
      var p := pre.pnext;
      minpre, minp, tail := pre, p, p;
      ghost var n := 1;
      k := 1;
      while p != null
        invariant 1 <= n <= |nodes| && p == NodeAt(nodes, n) && pre == nodes[n - 1]
        invariant 1 <= k < |nodes| && minpre == nodes[k - 1] && minp == nodes[k]
        invariant if n == 1 then k == 1 else tail == pre && k < n
        invariant forall i | 1 <= i < n :: leases[k].timer <= leases[i].timer
        invariant forall i | 1 <= i < k :: leases[k].timer < leases[i].timer
        decreases |nodes| - n
      {
        tail := p;
        if p.data.timer < minp.data.timer {
          minp := p;
          minpre := pre;
          k := n;
        }
        pre := p;
        p := p.pnext;
        n := n + 1;
      }
      OldestIsUnique(leases, k);
    }

    method UnlinkAndMark(minpre: ListNode, minp: ListNode, tail: ListNode, ghost k: nat)
      requires ListShape() && 1 <= k < |nodes|
      requires minpre == nodes[k - 1] && minp == nodes[k] && tail == nodes[|nodes| - 1]
      modifies `nodes, `leases, repr
      ensures ListShape() && repr == old(repr)
      ensures leases == P.KilledAt(old(leases), k)
    {
      SetRecord(tail, |nodes| - 1, tail.data.(state := P.Offline));
      minpre.pnext := minp.pnext;
      LinkedRemove(plist, nodes, k);
      CarriesRemove(nodes, leases, k);
      nodes := RemoveAt(nodes, k);
      leases := RemoveAt(leases, k);
    }

    // ----- dhcps_stop -----

    // Unlink the head.
    method DropHead(pback: ListNode) returns (pnode: Node?<Lease>)
      requires ListShape() && plist == pback
      modifies `plist, `nodes, `leases, repr
      ensures ListShape() && |old(leases)| >= 1 && leases == old(leases)[1..] && pnode == plist
      ensures pback.data.mac == old(leases)[0].mac
    {
      pnode := pback.pnext;
      RemoveAtElements(nodes, 0);
      RemoveNode(pback, 0);
    }

    // Unlink every node from the front; cleared lists the clients whose station
    // address is reset.
    method Stop() returns (cleared: seq<Mac>)
      requires Valid()
      modifies `plist, `nodes, `leases, repr
      ensures Valid() && |leases| == 0 && plist == null
      ensures |cleared| == |old(leases)| && forall i | 0 <= i < |cleared| :: cleared[i] == old(leases)[i].mac
    {
      cleared := [];
      var pnode := plist;
      ghost var p := leases;
      while pnode != null
        invariant ListShape() && pnode == plist
        invariant |cleared| <= |p| && leases == p[|cleared|..]
        invariant forall i | 0 <= i < |cleared| :: cleared[i] == p[i].mac
        decreases |leases|
      {
        var pback := pnode;
        pnode := DropHead(pback);
        cleared := cleared + [pback.data.mac];
      }
    }

    // ----- parse_options, parse_msg -----

    // One option: what it changes, and where the next one starts.
    static method ScanOne(buf: seq<byte>, len: int, i: nat, kind: byte, state: Verdict, client: Addr, ghost seen: seq<Seen>)
      returns (k: byte, s: Verdict, next: nat)
      requires ReadsInside(buf, len, i) && i < len && buf[i] != OPTION_END
      requires kind == MessageType(seen) && state == Compared(LastRequested(seen), client)
      ensures i < next && ReadsInside(buf, len, next)
      ensures Walk(buf, len, i) == [SeenAt(buf, i)] + Walk(buf, len, next)
      ensures k == MessageType(seen + [SeenAt(buf, i)])
      ensures s == Compared(LastRequested(seen + [SeenAt(buf, i)]), client)
    {
      SeenSnoc(seen, SeenAt(buf, i));
      k, s, next := kind, state, i + buf[i + 1] + 2;
      if buf[i] == OPTION_MSG_TYPE {
        k := buf[i + 2];
      } else if buf[i] == OPTION_REQ_IPADDR {
        s := if Addr(buf[i + 2], buf[i + 3], buf[i + 4], buf[i + 5]) == client then Ack else Nak;
      }
    }

    // The loop over the options.
    static method ScanOptions(buf: seq<byte>, len: int, client: Addr) returns (kind: byte, state: Verdict)
      requires ReadsInside(buf, len, 0)
      ensures kind == MessageType(Walk(buf, len, 0))
      ensures state == Compared(LastRequested(Walk(buf, len, 0)), client)
    {
      var i := 0;
      kind, state := 0, Idle;
      ghost var seen: seq<Seen>, all := [], Walk(buf, len, 0);
      while i < len && buf[i] != OPTION_END
        invariant ReadsInside(buf, len, i) && seen + Walk(buf, len, i) == all
        invariant kind == MessageType(seen) && state == Compared(LastRequested(seen), client)
        decreases len - i
      {
        ghost var o := SeenAt(buf, i);
        var next;
        kind, state, next := ScanOne(buf, len, i, kind, state, client, seen);
        Regroup(seen, o, Walk(buf, len, next));
        seen, i := seen + [o], next;
      }
      assert |Walk(buf, len, i)| == 0;
      assert seen == all;
    }

    method ParseOptions(buf: seq<byte>, len: int) returns (state: Verdict)
      requires ReadsInside(buf, len, 0)
      ensures state == Decide(Walk(buf, len, 0), clientAddress, renew)
    {
      var kind;
      kind, state := ScanOptions(buf, len, clientAddress);
      if kind == DHCPDISCOVER {
        state := Offer;
      } else if kind == DHCPREQUEST {
        if !(state == Ack || state == Nak) {
          state := if renew then Ack else Nak;
        }
      } else if kind == DHCPDECLINE {
        state := Idle;
      } else if kind == DHCPRELEASE {
        state := Release;
      }
    }

    method Conclude(m: Message, state: Verdict)
      requires Valid()
      modifies `plist, `nodes, `leases, `clientAddress, repr
      ensures Valid() && Cfg() == old(Cfg())
      ensures Outcome(leases, state, clientAddress, renew)
              == Concluded(old(P.Update(leases, clientAddress, renew)), state, m)
    {
      if state == Release {
        var cleared := ClientLeave(Some(m.chaddr), Some(m.ciaddr), true);
        clientAddress := m.ciaddr;
      }
    }

    method ParseMsg(m: Message, len: int) returns (state: Verdict)
      requires Valid() && ReadableMessage(m, len)
      modifies `plist, `nodes, `leases, `repr, `renew, `clientAddress, repr
      ensures Valid() && fresh(repr - old(repr)) && Cfg() == old(Cfg())
      ensures DhcpMessages.ParseMsg(old(leases), m, len, Cfg(), old(clientAddress), old(renew))
              == Outcome(leases, state, clientAddress, renew)
    {
      if m.options[..4] != MAGIC_COOKIE {
        return Nothing;
      }
      ghost var u := P.ClientUpdate(leases, Some(m.chaddr), Some(m.ciaddr), Cfg(), renew);
      clientAddress := ClientUpdate(Some(m.chaddr), Some(m.ciaddr));
      assert u == P.Update(leases, clientAddress, renew);
      state := ParseOptions(m.options[4..], len);
      Conclude(m, state);
    }

    // ----- wifi_softap_init_dhcps_lease, wifi_softap_set_dhcps_lease -----

    function LeaseCfg(): R.Range
      reads this
    {
      R.Range(enable, startIp, endIp)
    }

    // The configured range is turned off when it does not fit the address.
    method CheckLease(ip: Addr)
      modifies `enable
      ensures enable == (old(enable) && R.Fits(old(LeaseCfg()), ip))
    {
      if enable {
        var softap, start, end := Host(ip), Host(startIp), Host(endIp);
        if start <= softap && softap <= end {
          enable := false;
        } else {
          softap := softap / 0x100;
          if start / 0x100 != softap || end / 0x100 != softap || R.Minus(end, start) > R.DHCPS_MAX_LEASE {
            enable := false;
          }
        }
      }
    }

    // A range next to the soft-AP's own address.
    method DefaultLease(ip: Addr)
      modifies `startIp, `endIp
      ensures startIp == R.DefaultRange(ip).start && endIp == R.DefaultRange(ip).end
    {
      var softap, local := SplitAddress(ip);
      if local >= 0x80 {
        local := local - R.DHCPS_MAX_LEASE;
      } else {
        local := local + 1;
      }
      startIp := JoinAddress(softap, local, ip);
      endIp := JoinAddress(softap, local + R.DHCPS_MAX_LEASE - 1, ip);
      R.DefaultRangeOctets(ip);
    }

    // htonl(softap | local)
    static method JoinAddress(softap: uint32, local: byte, ghost ip: Addr) returns (a: Addr)
      requires softap == Host(ip) - ip.o4
      ensures a == ip.(o4 := local)
    {
      R.OrLowSetsOctet(ip, local);
      a := FromHost(R.OrLow(softap, local));
    }

    // The network part and the last octet of an address.
    static method SplitAddress(ip: Addr) returns (softap: uint32, local: byte)
      ensures softap == Host(ip) - ip.o4 && local == ip.o4
    {
      R.HostOctets(ip);
      softap := Host(ip);
      local := softap % 0x100;
      softap := softap - softap % 0x100;
    }

    method InitLease(ip: Addr)
      modifies `enable, `startIp, `endIp
      ensures LeaseCfg() == R.Init(old(LeaseCfg()), ip)
    {
      CheckLease(ip);
      if !enable {
        DefaultLease(ip);
      }
    }

    method SetLease(please: Option<R.Range>, ip: Addr, modeOn: bool, started: bool) returns (ok: bool)
      modifies `enable, `startIp, `endIp
      ensures (LeaseCfg(), ok) == R.Set(old(LeaseCfg()), please, ip, modeOn && !started)
    {
      if !modeOn {
        return false;
      }
      if please.None? || started {
        return false;
      }
      if please.value.enable {
        var softap, start, end := Host(ip), Host(please.value.start), Host(please.value.end);
        if start <= softap && softap <= end {
          return false;
        }
        softap := softap / 0x100;
        if start / 0x100 != softap || end / 0x100 != softap {
          return false;
        }
        if R.Minus(end, start) > R.DHCPS_MAX_LEASE {
          return false;
        }
        startIp, endIp := please.value.start, please.value.end;
      }
      enable := please.value.enable;
      ok := true;
    }

    // wifi_softap_set_dhcps_lease_time: never 0, and only while the server is stopped.
    method SetLeaseTime(minute: uint32, modeOn: bool, started: bool) returns (ok: bool)
      modifies `leaseTime
      ensures ok <==> modeOn && !started && minute != 0
      ensures leaseTime == if ok then minute else old(leaseTime)
      ensures old(RangeOk(Cfg())) ==> RangeOk(Cfg())
    {
      if !modeOn || started || minute == 0 {
        return false;
      }
      leaseTime := minute;
      ok := true;
    }
  }

  // ----- sequence facts behind the list pass -----

  ghost predicate OnlyAtIndex(p: P.Pool, mac: Mac) {
    forall i | 0 <= i < |p| && p[i].mac == mac :: i == P.IndexOfMac(p, mac)
  }

  ghost function HolderBefore(ns: seq<ListNode>, p: P.Pool, n: nat, a: Addr): Node?<Lease>
    requires |ns| == |p| && n <= |p|
  {
    var i := P.LastIndexOfIp(p[..n], a);
    if i < n then ns[i] else null
  }

  lemma HolderStep(ns: seq<ListNode>, p: P.Pool, n: nat, ip: Option<Addr>)
    requires |ns| == |p| && n < |p|
    ensures ip.Some? ==>
              HolderBefore(ns, p, n + 1, ip.value) ==
              if p[n].ip == ip.value then ns[n] else HolderBefore(ns, p, n, ip.value)
  {
    assert p[..n + 1][..n] == p[..n];
  }

  lemma GapStep(p: P.Pool, n: nat, m: nat, a: Addr)
    requires n < |p| && m <= |p|
    ensures n < m ==> P.Gap(p[n..m], a) == if p[n].ip != a then a else P.Gap(p[n + 1..m], Next(a))
    ensures n == m ==> P.Gap(p[n..m], a) == a
  {
    if n < m {
      assert p[n..m][1..] == p[n + 1..m];
    }
  }

  lemma RemoveUpdated(p: P.Pool, m: nat, l: Lease)
    requires m < |p|
    ensures RemoveAt(p[m := l], m) == RemoveAt(p, m)
  {}

  lemma RemoveAfterUpdate(p: P.Pool, i: nat, m: nat, l: Lease)
    requires i < |p| && m < |p| && i != m
    ensures RemoveAt(p[i := l], m) == RemoveAt(p, m)[if i < m then i else i - 1 := l]
  {}

  // The list after n of its entries were counted down, and how many of these
  // stayed.
  ghost function Aging(p: P.Pool, n: nat): (r: (P.Pool, nat))
    requires n <= |p|
    ensures r.1 <= n && |r.0| - r.1 == |p| - n
  {
    if n == 0 then (p, 0)
    else
      var (q, k) := Aging(p, n - 1);
      var l := P.Aged(q[k]);
      if l.timer == 0 then (RemoveAt(q, k), k) else (q[k := l], k + 1)
  }

  lemma AgingUnfold(p: P.Pool, n: nat, q: P.Pool, k: nat)
    requires n < |p| && Aging(p, n) == (q, k)
    ensures k < |q|
    ensures var l := P.Aged(q[k]);
            Aging(p, n + 1) == if l.timer == 0 then (RemoveAt(q, k), k) else (q[k := l], k + 1)
    ensures q[k := q[k]] == q
  {}

  lemma SurvivorsSnoc(p: P.Pool, n: nat)
    requires n < |p|
    ensures var l := P.Aged(p[n]);
            P.Survivors(p[..n + 1]) == if l.timer == 0 then P.Survivors(p[..n]) else P.Survivors(p[..n]) + [l]
  {
    assert p[..n + 1][..n] == p[..n];
  }

  // q is s followed by rest, and k stands between them.
  ghost predicate SplitAt(r: (P.Pool, nat), s: P.Pool, rest: P.Pool) {
    r.1 == |s| && r.0 == s + rest
  }

  lemma SplitStep(a: (P.Pool, nat), b: (P.Pool, nat), s: P.Pool, s': P.Pool, l: Lease, rest: P.Pool)
    requires SplitAt(a, s, [l] + rest)
    requires var x := P.Aged(l);
             && b == (if x.timer == 0 then (RemoveAt(a.0, a.1), a.1) else (a.0[a.1 := x], a.1 + 1))
             && s' == (if x.timer == 0 then s else s + [x])
    ensures SplitAt(b, s', rest)
  {}

  lemma AgingStart(p: P.Pool)
    ensures SplitAt(Aging(p, 0), P.Survivors(p[..0]), p[0..])
  {
    var none: P.Pool := p[..0];
    assert P.Survivors(none) == [];
  }

  lemma AgingAt(p: P.Pool, n: nat)
    requires n < |p| && SplitAt(Aging(p, n), P.Survivors(p[..n]), p[n..])
    ensures var (q, k) := Aging(p, n);
            var x := P.Aged(p[n]);
            Aging(p, n + 1) == if x.timer == 0 then (RemoveAt(q, k), k) else (q[k := x], k + 1)
  {
    var (q, k) := Aging(p, n);
    AgingUnfold(p, n, q, k);
    assert q[k] == p[n..][0];
  }

  lemma AgingStep(p: P.Pool, n: nat)
    requires n < |p| && SplitAt(Aging(p, n), P.Survivors(p[..n]), p[n..])
    ensures SplitAt(Aging(p, n + 1), P.Survivors(p[..n + 1]), p[n + 1..])
  {
    AgingAt(p, n);
    SurvivorsSnoc(p, n);
    assert p[n..] == [p[n]] + p[n + 1..];
    SplitStep(Aging(p, n), Aging(p, n + 1), P.Survivors(p[..n]), P.Survivors(p[..n + 1]), p[n], p[n + 1..]);
  }

  lemma {:induction false} AgingIsSurvivors(p: P.Pool, n: nat)
    requires n <= |p|
    ensures SplitAt(Aging(p, n), P.Survivors(p[..n]), p[n..])
  {
    if n > 0 {
      AgingIsSurvivors(p, n - 1);
      AgingStep(p, n - 1);
    } else {
      AgingStart(p);
    }
  }

  // Behind the last entry only the survivors are left.
  lemma AgedAll(p: P.Pool, n: nat, q: P.Pool, k: nat)
    requires n <= |p| && Aging(p, n) == (q, k) && k == |q|
    ensures q == P.Survivors(p)
  {
    AgingIsSurvivors(p, n);
    assert p[..n] == p;
  }

  lemma OldestIsUnique(p: P.Pool, k: nat)
    requires 1 <= k < |p|
    requires forall i | 1 <= i < |p| :: p[k].timer <= p[i].timer
    requires forall i | 1 <= i < k :: p[k].timer < p[i].timer
    ensures k == P.Oldest(p)
  {
    var o := P.Oldest(p);
    assert p[o].timer == p[k].timer;
  }

  lemma CountStep(k: nat)
    ensures (k % 0x100 + 1) % 0x100 == (k + 1) % 0x100
  {}

  lemma Regroup(seen: seq<Seen>, o: Seen, rest: seq<Seen>)
    ensures seen + ([o] + rest) == (seen + [o]) + rest
  {}

  lemma SeenSnoc(s: seq<Seen>, o: Seen)
    ensures MessageType(s + [o]) == if o.MsgType? then o.kind else MessageType(s)
    ensures LastRequested(s + [o]) == if o.Requested? then Some(o.addr) else LastRequested(s)
  {
    assert (s + [o])[..|s|] == s;
  }
}
