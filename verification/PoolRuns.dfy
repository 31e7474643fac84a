// Whole runs of the lease pool: leaving, static additions and timer ticks, the
// invariant over every sequence of steps, and the expiry of abandoned leases.

module PoolRuns {
  import opened Machine
  import opened Addresses
  import opened Lists
  import opened LeasePool
  import opened PoolProperties

  // ----- a full range -----

  lemma RisingBound(p: Pool, net: Addr, k: nat)
    requires Rising(p, net) && k < |p|
    ensures p[k].ip.o4 >= p[0].ip.o4 + k
  {
    if k > 0 {
      RisingBound(p, net, k - 1);
    }
  }

  lemma {:induction false} GapOfFullRange(p: Pool, a: Addr, end: Addr)
    requires Rising(p, a) && SameNet(a, end) && a.o4 <= end.o4
    requires forall i | 0 <= i < |p| :: a.o4 <= p[i].ip.o4 <= end.o4
    requires forall x | SameNet(x, a) && a.o4 <= x.o4 <= end.o4 :: Held(p, x)
    ensures Gap(p, a) == Next(end)
  {
    assert Held(p, a);
    assert p[0].ip == a;
    var q := p[1..];
    assert forall i | 0 < i < |p| :: p[i] == q[i - 1];
    if a == end {
      RisingBound(p, a, |p| - 1);
    } else {
      forall x | SameNet(x, a) && a.o4 < x.o4 <= end.o4 ensures Held(q, x) {
        assert Held(p, x);
      }
      GapOfFullRange(q, Next(a), end);
    }
  }

  lemma AssignToNewcomer(p: Pool, mac: Mac, c: Config)
    requires !Knows(p, mac)
    ensures var g := Gap(p, c.start);
            var (q, reply) := Assign(p, mac, c);
            if Below(c.end, g) then q == p && reply == IPADDR_ANY else |q| == |p| + 1 && reply == g
  {
    var k := IndexOfMac(p, mac);
    assert p[..k] == p;
  }

  // A new client of a full range is turned away exactly when the range ends
  // below .255. When it ends at .255 the address after the end has last octet
  // 0, looks smaller than the end in the raw comparison, and is handed out.
  lemma FullPoolRefusedIff(p: Pool, mac: Mac, ip: Option<Addr>, c: Config, renew: bool)
    requires SameNet(c.start, c.end) && c.start.o4 <= c.end.o4
    requires StrictlySorted(p) && AllInRange(p, c) && !Knows(p, mac)
    requires forall x | InRange(x, c) :: Held(p, x)
    requires ip.None? || ip == Some(IPADDR_ANY)
    ensures ClientUpdate(p, Some(mac), ip, c, renew).pool == p <==> c.end.o4 < 255
    ensures c.end.o4 == 255 ==> !InRange(ClientUpdate(p, Some(mac), ip, c, renew).reply, c)
  {
    PoolRises(p, c);
    GapOfFullRange(p, c.start, c.end);
    NextLooksLargerIff(c.end);
    AssignToNewcomer(p, mac, c);
  }

  // ----- leaving -----

  lemma BindingFound(p: Pool, l: Lease)
    requires UniqueMacs(p) && l in p
    ensures IndexOfBinding(p, l.mac, l.ip) < |p| && p[IndexOfBinding(p, l.mac, l.ip)] == l
  {
    var j :| 0 <= j < |p| && p[j] == l;
  }

  // EFFECT OF A LEAVE. It touches the client only at the address it names: a
  // static or forced leave takes the lease, its client and its address out of
  // the pool, any other leave marks the lease OFFLINE.
  lemma LeaveEffect(p: Pool, l: Lease, force: bool, c: Config)
    requires PoolOk(p, c) && l in p
    ensures var q := ClientLeave(p, Some(l.mac), Some(l.ip), force);
            && PoolOk(q, c)
            && if l.kind == Static || force then
                 && !Knows(q, l.mac) && !Held(q, l.ip)
                 && forall x :: x in q <==> x in p && x != l
               else
                 forall x :: x in q <==> x == l.(state := Offline) || (x in p && x != l)
  {
    BindingFound(p, l);
    var k := IndexOfBinding(p, l.mac, l.ip);
    AddressesDistinct(p);
    forall x | x in p ensures x.mac == l.mac <==> x == l {
      MacIsKey(p, x, l);
    }
    if l.kind == Static || force {
      RemoveKeepsOrder(p, k);
      RemoveElements(p, k);
      RemovedMacIsUnknown(p, k);
    } else {
      ReplaceKeepsOk(p, k, l.(state := Offline), c);
      ReplaceElements(p, k, l.(state := Offline));
    }
  }

  lemma LeaveOfStranger(p: Pool, mac: Mac, a: Addr, force: bool)
    requires forall x | x in p :: !(x.mac == mac && x.ip == a)
    ensures ClientLeave(p, Some(mac), Some(a), force) == p
  {
    assert forall i | 0 <= i < |p| :: p[i] in p;
  }

  // ----- static additions -----

  lemma PoolSize(p: Pool, c: Config)
    requires PoolOk(p, c)
    ensures |p| <= c.end.o4 - c.start.o4 + 1
  {
    PoolRises(p, c);
    if p != [] {
      RisingBound(p, c.start, |p| - 1);
    }
  }

  lemma {:induction false} NthNextInNet(a: Addr, n: nat)
    requires a.o4 + n <= 255
    ensures NthNext(a, n) == a.(o4 := a.o4 + n)
    decreases n
  {
    if n > 0 {
      NthNextInNet(Next(a), n - 1);
    }
  }

  // A STATIC ADDITION takes start + n, where n counts the entries whatever they
  // hold. It keeps the invariant exactly when no entry already holds that
  // address.
  lemma AddStaticKeepsOkIff(p: Pool, mac: Mac, c: Config)
    requires PoolOk(p, c)
    ensures var (q, ok) := AddStatic(p, mac, c);
            var a := NthNext(c.start, |p|);
            && (!ok ==> q == p)
            && (ok <==> !Knows(p, mac) && c.start.o4 + |p| <= c.end.o4)
            && (ok ==> (PoolOk(q, c) <==> !Held(p, a)))
            && (ok ==> forall x :: x in q <==> x in p || x == Lease(a, mac, c.leaseTime, Static, Online))
  {
    PoolSize(p, c);
    NthNextInNet(c.start, |p|);
    var a := NthNext(c.start, |p|);
    var (q, ok) := AddStatic(p, mac, c);
    var l := Lease(a, mac, c.leaseTime, Static, Online);
    if IndexOfMac(p, mac) < |p| {
      assert p[IndexOfMac(p, mac)].mac == mac;
    }
    if ok {
      InsertElements(p, l);
      if Held(p, a) {
        var i :| 0 <= i < |p| && p[i].ip == a;
        assert p[i] in q && l in q && p[i].mac != mac;
        TwoLeasesOneAddress(q, p[i], l);
      } else {
        InsertKeepsOk(p, l, c);
      }
    }
  }

  lemma TwoLeasesOneAddress(p: Pool, x: Lease, y: Lease)
    requires x in p && y in p && x != y && x.ip == y.ip
    ensures !StrictlySorted(p)
  {
    var i :| 0 <= i < |p| && p[i] == x;
    var j :| 0 <= j < |p| && p[j] == y;
    if i < j {
      assert !Below(p[i].ip, p[j].ip);
    } else {
      assert !Below(p[j].ip, p[i].ip);
    }
  }

  // A pool in which that happens: one client sits on the second address.
  lemma AddStaticCanDoubleBind()
    ensures var c := Config(Addr(192, 168, 4, 2), Addr(192, 168, 4, 101), 120);
            var p := [Lease(Addr(192, 168, 4, 3), 1, 120, Dynamic, Online)];
            PoolOk(p, c) && !PoolOk(AddStatic(p, 2, c).0, c)
  {
    var c := Config(Addr(192, 168, 4, 2), Addr(192, 168, 4, 101), 120);
    var p := [Lease(Addr(192, 168, 4, 3), 1, 120, Dynamic, Online)];
    NthNextInNet(c.start, 1);
    AddStaticKeepsOkIff(p, 2, c);
    assert p[0].ip == NthNext(c.start, |p|);
  }

  // The pool start, start + 1, ... without holes.
  ghost predicate Packed(p: Pool, c: Config) {
    forall i | 0 <= i < |p| :: SameNet(p[i].ip, c.start) && p[i].ip.o4 == c.start.o4 + i
  }

  // Static additions made before any client arrives fill the range in order.
  lemma StaticAddsPack(p: Pool, mac: Mac, c: Config)
    requires PoolOk(p, c) && Packed(p, c) && AddStatic(p, mac, c).1
    ensures var q := AddStatic(p, mac, c).0;
            PoolOk(q, c) && Packed(q, c) && |q| == |p| + 1 && q[..|p|] == p && q[|p|].mac == mac
  {
    PoolSize(p, c);
    AddStaticKeepsOkIff(p, mac, c);
    NthNextInNet(c.start, |p|);
    var a := NthNext(c.start, |p|);
    forall i | 0 <= i < |p| ensures p[i].ip != a && Below(p[i].ip, a) {
    }
    assert InsertPos(p, a) == |p|;
  }

  // ----- timer ticks -----

  lemma {:induction false} SurvivorsElements(p: Pool)
    ensures forall x :: x in Survivors(p) <==> x.timer != 0 && exists y :: y in p && x == Aged(y)
  {
    if p != [] {
      var q, l := p[..|p| - 1], p[|p| - 1];
      SurvivorsElements(q);
      assert p == q + [l];
      forall x ensures x in Survivors(p) <==> x.timer != 0 && exists y :: y in p && x == Aged(y) {
        if x in Survivors(q) {
          var y :| y in q && x == Aged(y);
          assert y in p;
        }
      }
    }
  }

  lemma AppendKeepsOk(s: Pool, l: Lease, c: Config)
    requires PoolOk(s, c) && InRange(l.ip, c) && l.timer >= 1
    requires forall i | 0 <= i < |s| :: Below(s[i].ip, l.ip) && s[i].mac != l.mac
    ensures PoolOk(s + [l], c)
  {}

  lemma PrefixOk(p: Pool, n: nat, c: Config)
    requires PoolOk(p, c) && n <= |p|
    ensures PoolOk(p[..n], c)
  {}

  lemma SurvivorsBelow(q: Pool, l: Lease)
    requires StrictlySorted(q + [l]) && UniqueMacs(q + [l])
    ensures forall i | 0 <= i < |Survivors(q)| ::
              Below(Survivors(q)[i].ip, l.ip) && Survivors(q)[i].mac != l.mac
  {
    SurvivorsElements(q);
    var p, s := q + [l], Survivors(q);
    forall i | 0 <= i < |s| ensures Below(s[i].ip, l.ip) && s[i].mac != l.mac {
      assert s[i] in s;
      var y :| y in q && s[i] == Aged(y);
      var j :| 0 <= j < |q| && q[j] == y;
      assert p[j] == y && p[|q|] == l;
    }
  }

  lemma {:induction false} SurvivorsOk(p: Pool, c: Config)
    requires PoolOk(p, c)
    ensures PoolOk(Survivors(p), c)
  {
    if p != [] {
      var q, l := p[..|p| - 1], p[|p| - 1];
      PrefixOk(p, |p| - 1, c);
      SurvivorsOk(q, c);
      assert p == q + [l];
      SurvivorsBelow(q, l);
      assert Aged(l).ip == l.ip && Aged(l).mac == l.mac;
      if Aged(l).timer != 0 {
        AppendKeepsOk(Survivors(q), Aged(l), c);
      }
    }
  }

  // What survives has a timer that still runs, whatever the pool.
  lemma SurvivorsRun(p: Pool)
    ensures TimersRun(Survivors(p))
  {
    SurvivorsElements(p);
    assert forall i | 0 <= i < |Survivors(p)| :: Survivors(p)[i] in Survivors(p);
  }

  // EFFECT OF A TICK, part one. Every dynamic lease loses one, static leases
  // keep their timer, exactly the leases reaching 0 go, and order is kept.
  // Addresses do not matter.
  lemma SurvivorsEffect(p: Pool, c: Config)
    requires UniqueMacs(p) && TimersRun(p)
    ensures UniqueMacs(Survivors(p)) && TimersRun(Survivors(p))
    ensures PoolOk(p, c) ==> PoolOk(Survivors(p), c)
    ensures forall l | l in p ::
              if l.kind == Static then l in Survivors(p)
              else if l.timer == 1 then !Knows(Survivors(p), l.mac)
              else l.(timer := l.timer - 1) in Survivors(p)
    ensures forall x | x in Survivors(p) :: Knows(p, x.mac)
  {
    if PoolOk(p, c) {
      SurvivorsOk(p, c);
    }
    SurvivorsRun(p);
    SurvivorsKeepMacs(p);
    SurvivorsElements(p);
    forall l | l in p ensures l.timer >= 1 {
      var i :| 0 <= i < |p| && p[i] == l;
    }
    forall l | l in p && l.kind == Dynamic && l.timer == 1 ensures !Knows(Survivors(p), l.mac) {
      LastTick(p, l);
    }
  }

  // A timer that is 0 already: the countdown of a dynamic lease wraps, a static
  // lease goes.
  lemma ZeroTimers(p: Pool, l: Lease)
    requires UniqueMacs(p) && l in p && l.timer == 0
    ensures l.kind == Dynamic ==> l.(timer := 0xFFFF_FFFF) in Survivors(p)
    ensures l.kind == Static ==> !Knows(Survivors(p), l.mac)
  {
    SurvivorsElements(p);
    var s := Survivors(p);
    if l.kind == Static {
      forall i | 0 <= i < |s| ensures s[i].mac != l.mac {
        assert s[i] in s;
        var y :| y in p && s[i] == Aged(y);
        MacIsKey(p, y, l);
      }
    }
  }

  lemma LastTick(p: Pool, l: Lease)
    requires UniqueMacs(p) && l in p && l.kind == Dynamic && l.timer == 1
    ensures !Knows(Survivors(p), l.mac)
  {
    SurvivorsElements(p);
    var s := Survivors(p);
    forall i | 0 <= i < |s| ensures s[i].mac != l.mac {
      assert s[i] in s;
      var y :| y in p && s[i] == Aged(y);
      MacIsKey(p, y, l);
    }
  }

  lemma MacIsKey(p: Pool, x: Lease, y: Lease)
    requires UniqueMacs(p) && x in p && y in p
    ensures x.mac == y.mac <==> x == y
  {
    var i :| 0 <= i < |p| && p[i] == x;
    var j :| 0 <= j < |p| && p[j] == y;
  }

  lemma TailMarkedEffect(s: Pool, c: Config)
    requires UniqueMacs(s) && s != []
    ensures var tail := s[|s| - 1];
            var m := s[|s| - 1 := tail.(state := Offline)];
            && UniqueMacs(m) && (TimersRun(s) ==> TimersRun(m)) && (PoolOk(s, c) ==> PoolOk(m, c))
            && forall x :: x in m <==> (x in s && x != tail) || x == tail.(state := Offline)
  {
    var tail := s[|s| - 1];
    if PoolOk(s, c) {
      ReplaceKeepsOk(s, |s| - 1, tail.(state := Offline), c);
    }
    ReplaceElements(s, |s| - 1, tail.(state := Offline));
    forall x | x in s ensures x.mac == tail.mac <==> x == tail {
      MacIsKey(s, x, tail);
    }
  }

  lemma RemoveKeepsOk(p: Pool, k: nat, c: Config)
    requires UniqueMacs(p) && k < |p|
    ensures UniqueMacs(RemoveAt(p, k)) && (TimersRun(p) ==> TimersRun(RemoveAt(p, k)))
    ensures PoolOk(p, c) ==> PoolOk(RemoveAt(p, k), c)
  {
    RemoveKeepsOrder(p, k);
  }

  // EFFECT OF AN EVICTION, on any pool with one lease per client.
  lemma KillOldestEffect(s: Pool, c: Config)
    requires UniqueMacs(s) && |s| >= 2
    ensures UniqueMacs(KillOldest(s)) && (TimersRun(s) ==> TimersRun(KillOldest(s)))
    ensures PoolOk(s, c) ==> PoolOk(KillOldest(s), c)
    ensures |KillOldest(s)| == |s| - 1
    ensures var v, tail := s[Oldest(s)], s[|s| - 1];
            forall x :: x in KillOldest(s) <==>
              x.mac != v.mac && ((x in s && x != tail) || x == tail.(state := Offline))
  {
    var k := Oldest(s);
    var m := s[|s| - 1 := s[|s| - 1].(state := Offline)];
    TailMarkedEffect(s, c);
    assert m[k].mac == s[k].mac;
    RemoveElements(m, k);
    RemoveKeepsOk(m, k, c);
  }

  // v is the survivor evicted between s and q: not the head, and of least timer.
  ghost predicate Evicted(s: Pool, q: Pool, v: Lease)
    requires s != []
  {
    var tail := s[|s| - 1];
    && v in s[1..] && (forall x | x in s[1..] :: v.timer <= x.timer)
    && forall x :: x in q <==> x.mac != v.mac && ((x in s && x != tail) || x == tail.(state := Offline))
  }

  lemma OldestIsEvicted(s: Pool, c: Config)
    requires UniqueMacs(s) && |s| >= 2
    ensures Evicted(s, KillOldest(s), s[Oldest(s)])
  {
    KillOldestEffect(s, c);
    var k := Oldest(s);
    assert s[k] == s[1..][k - 1];
  }

  lemma FitsUint8(n: nat)
    requires n < TWO_8
    ensures n % 0x100 == n
  {}

  // EFFECT OF A TICK, part two. With 8 or more survivors, counted modulo 256,
  // exactly one of them goes besides: a lease other than the head whose timer is
  // least among those. The tail, unless it is the victim, is marked OFFLINE.
  lemma TickEffect(p: Pool, c: Config)
    requires UniqueMacs(p)
    ensures UniqueMacs(Tick(p)) && TimersRun(Tick(p)) && (PoolOk(p, c) ==> PoolOk(Tick(p), c))
    ensures |p| < TWO_8 ==> |Survivors(p)| % 0x100 == |Survivors(p)|
    ensures |Survivors(p)| % 0x100 < 8 ==> Tick(p) == Survivors(p)
    ensures |Survivors(p)| % 0x100 >= 8 ==>
              && |Tick(p)| == |Survivors(p)| - 1
              && exists v :: Evicted(Survivors(p), Tick(p), v)
  {
    SurvivorsKeepMacs(p);
    SurvivorsRun(p);
    if PoolOk(p, c) {
      SurvivorsOk(p, c);
    }
    if |p| < TWO_8 {
      FitsUint8(|Survivors(p)|);
    }
    TickIs(p);
    var s := Survivors(p);
    if |s| % 0x100 >= MAX_STATION_NUM {
      KillOldestEffect(s, c);
      OldestIsEvicted(s, c);
    }
  }

  lemma TickIs(p: Pool)
    ensures |Survivors(p)| % 0x100 >= MAX_STATION_NUM ==> |Survivors(p)| >= 2 && Tick(p) == KillOldest(Survivors(p))
    ensures |Survivors(p)| % 0x100 < MAX_STATION_NUM ==> Tick(p) == Survivors(p)
  {}

  // ----- runs -----

  datatype Step =
    | UpdateStep(mac: Option<Mac>, ip: Option<Addr>)
    | LeaveStep(mac: Option<Mac>, ip: Option<Addr>, force: bool)
    | AddStep(client: Mac)
    | TickStep

  // The pool and the renew flag after one step.
  function Exec(p: Pool, renew: bool, s: Step, c: Config): (Pool, bool) {
    match s
    case UpdateStep(mac, ip) => var u := ClientUpdate(p, mac, ip, c, renew); (u.pool, u.renew)
    case LeaveStep(mac, ip, force) => (ClientLeave(p, mac, ip, force), renew)
    case AddStep(mac) => (AddStatic(p, mac, c).0, renew)
    case TickStep => (Tick(p), renew)
  }

  function Run(p: Pool, renew: bool, steps: seq<Step>, c: Config): Pool
    decreases |steps|
  {
    if |steps| == 0 then p
    else
      var (q, r) := Exec(p, renew, steps[0], c);
      Run(q, r, steps[1..], c)
  }

  // A claimed address lies in the range or is refused, and a static addition
  // meets a free slot.
  ghost predicate GoodStep(p: Pool, s: Step, c: Config) {
    match s
    case UpdateStep(mac, ip) => mac.None? || KeepsPool(p, mac.value, ip, c)
    case AddStep(mac) => AddStatic(p, mac, c).1 ==> !Held(p, NthNext(c.start, |p|))
    case _ => true
  }

  ghost predicate GoodRun(p: Pool, renew: bool, steps: seq<Step>, c: Config)
    decreases |steps|
  {
    steps != [] ==>
      && GoodStep(p, steps[0], c)
      && var (q, r) := Exec(p, renew, steps[0], c);
         GoodRun(q, r, steps[1..], c)
  }

  // A step keeps the pool well formed exactly when it is a good one.
  lemma StepKeepsOkIff(p: Pool, renew: bool, s: Step, c: Config)
    requires PoolOk(p, c)
    ensures PoolOk(Exec(p, renew, s, c).0, c) <==> GoodStep(p, s, c)
    ensures s.UpdateStep? && s.mac.None? ==> Exec(p, renew, s, c) == (p, renew)
  {
    match s
    case UpdateStep(mac, ip) =>
      if mac.Some? {
        UpdateKeepsOkIff(p, mac.value, ip, c, renew);
      }
    case LeaveStep(mac, ip, force) =>
      if mac.Some? && ip.Some? {
        LeaveKeepsOk(p, mac.value, ip.value, force, c);
      }
    case AddStep(mac) =>
      AddStaticKeepsOkIff(p, mac, c);
    case TickStep =>
      TickEffect(p, c);
  }

  // Leaving takes an inserted lease out again.
  lemma LeaveUndoesInsert(q: Pool, l: Lease)
    requires !Knows(q, l.mac)
    ensures ClientLeave(Insert(q, l), Some(l.mac), Some(l.ip), true) == q
  {
    var k := InsertPos(q, l.ip);
    InsertedIsFound(q, k, l);
    RemoveUndoesInsert(q, k, l);
  }

  lemma InsertedIsFound(q: Pool, k: nat, l: Lease)
    requires !Knows(q, l.mac) && k <= |q|
    ensures IndexOfBinding(InsertAt(q, k, l), l.mac, l.ip) == k
  {
    var r := InsertAt(q, k, l);
    InsertAtElements(q, k, l);
    assert r[k] == l;
    assert forall i | 0 <= i < k :: r[i] == q[i];
  }

  lemma RemoveUndoesInsert(q: Pool, k: nat, l: Lease)
    requires k <= |q|
    ensures RemoveAt(InsertAt(q, k, l), k) == q
  {}

  lemma LeaveKeepsOk(p: Pool, mac: Mac, a: Addr, force: bool, c: Config)
    requires PoolOk(p, c)
    ensures PoolOk(ClientLeave(p, Some(mac), Some(a), force), c)
  {
    var k := IndexOfBinding(p, mac, a);
    if k < |p| {
      LeaveEffect(p, p[k], force, c);
    }
  }

  // The pool is well formed now and after every step.
  ghost predicate AlwaysOk(p: Pool, renew: bool, steps: seq<Step>, c: Config)
    decreases |steps|
  {
    PoolOk(p, c) &&
    (steps != [] ==>
       var (q, r) := Exec(p, renew, steps[0], c);
       AlwaysOk(q, r, steps[1..], c))
  }

  // The pool stays well formed all along exactly in the good runs.
  lemma {:induction false} AlwaysOkIff(p: Pool, renew: bool, steps: seq<Step>, c: Config)
    requires PoolOk(p, c)
    ensures AlwaysOk(p, renew, steps, c) <==> GoodRun(p, renew, steps, c)
    decreases |steps|
  {
    if steps != [] {
      StepKeepsOkIff(p, renew, steps[0], c);
      var (q, r) := Exec(p, renew, steps[0], c);
      if PoolOk(q, c) {
        AlwaysOkIff(q, r, steps[1..], c);
      }
    }
  }

  // POOL INVARIANT. Over every run of updates, leaves, static additions and
  // ticks from an empty (or any well-formed) pool, the list stays strictly
  // sorted, inside the range, with one lease per client and per address and all
  // timers running.
  lemma {:induction false} RunKeepsOk(p: Pool, renew: bool, steps: seq<Step>, c: Config)
    requires PoolOk(p, c) && GoodRun(p, renew, steps, c)
    ensures PoolOk(Run(p, renew, steps, c), c)
    decreases |steps|
  {
    if steps != [] {
      StepKeepsOkIff(p, renew, steps[0], c);
      var (q, r) := Exec(p, renew, steps[0], c);
      RunKeepsOk(q, r, steps[1..], c);
    }
  }

  // ----- one lease per client, with no proviso at all -----

  lemma InsertMovedKeepsMacs(p: Pool, k: nat, l: Lease)
    requires UniqueMacs(p) && k <= |p|
    requires if k < |p| then p[k].mac == l.mac else !Knows(p, l.mac)
    ensures UniqueMacs(Insert(if k < |p| then RemoveAt(p, k) else p, l))
  {
    if k < |p| {
      RemoveKeepsOrder(p, k);
      RemovedMacIsUnknown(p, k);
      InsertUniqueMacs(RemoveAt(p, k), l);
    } else {
      InsertUniqueMacs(p, l);
    }
  }

  lemma ReplaceKeepsMacs(p: Pool, k: nat, l: Lease)
    requires UniqueMacs(p) && k < |p|
    requires l.mac == p[k].mac || !Knows(p, l.mac)
    ensures UniqueMacs(p[k := l])
  {}

  lemma TakeOverKeepsMacs(p: Pool, i: nat, m: nat, l: Lease)
    requires UniqueMacs(p) && i < |p| && m < |p| && i != m && p[m].mac == l.mac
    ensures UniqueMacs(RemoveAt(p[i := l], m))
  {
    var i' := if i < m then i else i - 1;
    assert RemoveAt(p[i := l], m) == RemoveAt(p, m)[i' := l];
    RemoveKeepsOrder(p, m);
    RemovedMacIsUnknown(p, m);
    ReplaceKeepsMacs(RemoveAt(p, m), i', l);
  }

  lemma ClaimKeepsMacs(p: Pool, mac: Mac, a: Addr, c: Config)
    requires UniqueMacs(p)
    ensures UniqueMacs(Claim(p, mac, a, c).pool)
  {
    var m, i := IndexOfMac(p, mac), LastIndexOfIp(p, a);
    var l := Lease(a, mac, c.leaseTime, Static, Online);
    if m < |p| && i == m {
      ReplaceKeepsMacs(p, m, l.(kind := Dynamic));
    } else if i == |p| {
      InsertMovedKeepsMacs(p, m, l);
    } else if m < |p| {
      TakeOverKeepsMacs(p, i, m, l);
    } else {
      ReplaceKeepsMacs(p, i, l);
    }
  }

  lemma UpdateKeepsMacs(p: Pool, mac: Mac, ip: Option<Addr>, c: Config, renew: bool)
    requires UniqueMacs(p)
    ensures UniqueMacs(ClientUpdate(p, Some(mac), ip, c, renew).pool)
  {
    if ip.None? || ip == Some(IPADDR_ANY) {
      var k := IndexOfMac(p, mac);
      InsertMovedKeepsMacs(p, k, Lease(Gap(p[..k], c.start), mac, c.leaseTime, Dynamic, Online));
    } else {
      ClaimKeepsMacs(p, mac, ip.value, c);
    }
  }

  lemma {:induction false} SurvivorsKeepMacs(p: Pool)
    requires UniqueMacs(p)
    ensures UniqueMacs(Survivors(p))
    ensures forall x | x in Survivors(p) :: Knows(p, x.mac)
  {
    SurvivorsElements(p);
    forall x | x in Survivors(p) ensures Knows(p, x.mac) {
      var y :| y in p && x == Aged(y);
      var i :| 0 <= i < |p| && p[i] == y;
      assert p[i].mac == x.mac;
    }
    if p != [] {
      var q := p[..|p| - 1];
      SurvivorsKeepMacs(q);
      var s := Survivors(q);
      forall i | 0 <= i < |s| ensures s[i].mac != p[|p| - 1].mac {
        assert s[i] in s;
        var j :| 0 <= j < |q| && q[j].mac == s[i].mac;
        assert p[j] == q[j];
      }
    }
  }

  lemma StepKeepsMacs(p: Pool, renew: bool, s: Step, c: Config)
    requires UniqueMacs(p)
    ensures UniqueMacs(Exec(p, renew, s, c).0)
  {
    match s
    case UpdateStep(mac, ip) =>
      if mac.Some? {
        UpdateKeepsMacs(p, mac.value, ip, c, renew);
      }
    case LeaveStep(mac, ip, force) =>
    case AddStep(mac) =>
      if AddStatic(p, mac, c).1 {
        InsertMovedKeepsMacs(p, |p|, Lease(NthNext(c.start, |p|), mac, c.leaseTime, Static, Online));
      }
    case TickStep =>
      TickEffect(p, c);
  }

  // No client ever has two leases, whatever addresses clients ask for, however
  // the range is configured and whenever static leases are added.
  lemma {:induction false} RunKeepsMacs(p: Pool, renew: bool, steps: seq<Step>, c: Config)
    requires UniqueMacs(p)
    ensures UniqueMacs(Run(p, renew, steps, c))
    decreases |steps|
  {
    if steps != [] {
      StepKeepsMacs(p, renew, steps[0], c);
      var (q, r) := Exec(p, renew, steps[0], c);
      RunKeepsMacs(q, r, steps[1..], c);
    }
  }

  // ----- timers, with no proviso but a positive lease time -----

  lemma RemoveMembers(p: Pool, k: nat)
    requires k < |p|
    ensures forall x | x in RemoveAt(p, k) :: x in p
  {}

  lemma InsertMovedMembers(p: Pool, k: nat, l: Lease)
    requires k <= |p|
    ensures forall x | x in Insert(if k < |p| then RemoveAt(p, k) else p, l) :: x == l || x in p
  {
    if k < |p| {
      RemoveMembers(p, k);
      InsertElements(RemoveAt(p, k), l);
    } else {
      InsertElements(p, l);
    }
  }

  // The leases an update leaves are old ones or new ones of this client.
  ghost predicate OnlyRenews(p: Pool, q: Pool, mac: Mac, c: Config) {
    forall x | x in q :: x in p || (x.mac == mac && x.timer == c.leaseTime)
  }

  lemma ClaimOnlyRenews(p: Pool, mac: Mac, a: Addr, c: Config)
    ensures OnlyRenews(p, Claim(p, mac, a, c).pool, mac, c)
  {
    var m, i := IndexOfMac(p, mac), LastIndexOfIp(p, a);
    var l := Lease(a, mac, c.leaseTime, Static, Online);
    if i == |p| {
      InsertMovedMembers(p, m, l);
    } else if m < |p| && i != m {
      RemoveMembers(p[i := l], m);
    }
  }

  lemma UpdateOnlyRenews(p: Pool, mac: Mac, ip: Option<Addr>, c: Config, renew: bool)
    ensures OnlyRenews(p, ClientUpdate(p, Some(mac), ip, c, renew).pool, mac, c)
  {
    if ip.None? || ip == Some(IPADDR_ANY) {
      var k := IndexOfMac(p, mac);
      InsertMovedMembers(p, k, Lease(Gap(p[..k], c.start), mac, c.leaseTime, Dynamic, Online));
    } else {
      ClaimOnlyRenews(p, mac, ip.value, c);
    }
  }

  // Every lease of q is one of p, but perhaps for its state.
  ghost predicate OnlyMarks(p: Pool, q: Pool) {
    forall x | x in q :: exists y :: y in p && x == y.(state := x.state)
  }

  lemma LeaveOnlyMarks(p: Pool, mac: Option<Mac>, ip: Option<Addr>, force: bool)
    ensures OnlyMarks(p, ClientLeave(p, mac, ip, force))
  {
    forall x | x in p ensures x == x.(state := x.state) {}
    if mac.Some? && ip.Some? {
      var k := IndexOfBinding(p, mac.value, ip.value);
      if k < |p| {
        RemoveMembers(p, k);
        assert p[k] in p;
      }
    }
  }

  lemma KillOldestOnlyMarks(s: Pool)
    requires |s| >= 2
    ensures OnlyMarks(s, KillOldest(s))
  {
    var tail := s[|s| - 1];
    forall x | x in s ensures x == x.(state := x.state) {}
    assert tail in s;
    RemoveMembers(s[|s| - 1 := tail.(state := Offline)], Oldest(s));
  }

  lemma AddOnlyRenews(p: Pool, mac: Mac, c: Config)
    ensures OnlyRenews(p, AddStatic(p, mac, c).0, mac, c)
  {
    InsertElements(p, Lease(NthNext(c.start, |p|), mac, c.leaseTime, Static, Online));
  }

  lemma RunsByMember(p: Pool)
    ensures TimersRun(p) <==> forall x | x in p :: x.timer >= 1
  {
    assert forall i | 0 <= i < |p| :: p[i] in p;
  }

  lemma StepKeepsTimers(p: Pool, renew: bool, s: Step, c: Config)
    requires TimersRun(p) && c.leaseTime >= 1
    ensures TimersRun(Exec(p, renew, s, c).0)
  {
    RunsByMember(p);
    RunsByMember(Exec(p, renew, s, c).0);
    match s
    case UpdateStep(mac, ip) =>
      if mac.Some? {
        UpdateOnlyRenews(p, mac.value, ip, c, renew);
      }
    case LeaveStep(mac, ip, force) =>
      LeaveOnlyMarks(p, mac, ip, force);
    case AddStep(mac) =>
      AddOnlyRenews(p, mac, c);
    case TickStep =>
      TickKeepsTimers(p);
  }

  lemma TickKeepsTimers(p: Pool)
    ensures TimersRun(Tick(p))
  {
    SurvivorsRun(p);
    TickIs(p);
    RunsByMember(Survivors(p));
    RunsByMember(Tick(p));
    if |Survivors(p)| % 0x100 >= MAX_STATION_NUM {
      KillOldestOnlyMarks(Survivors(p));
    }
  }

  // No timer is ever 0 between two steps: the countdown never wraps.
  lemma {:induction false} RunKeepsTimers(p: Pool, renew: bool, steps: seq<Step>, c: Config)
    requires TimersRun(p) && c.leaseTime >= 1
    ensures TimersRun(Run(p, renew, steps, c))
    decreases |steps|
  {
    if steps != [] {
      StepKeepsTimers(p, renew, steps[0], c);
      var (q, r) := Exec(p, renew, steps[0], c);
      RunKeepsTimers(q, r, steps[1..], c);
    }
  }

  // ----- expiry -----

  function Ticks(steps: seq<Step>): nat {
    if |steps| == 0 then 0 else (if steps[0].TickStep? then 1 else 0) + Ticks(steps[1..])
  }

  // The client's leases, if any, are dynamic and have at most t ticks to go.
  ghost predicate EndsWithin(p: Pool, mac: Mac, t: nat) {
    forall x | x in p && x.mac == mac :: x.kind == Dynamic && 1 <= x.timer <= t
  }

  predicate Refreshes(s: Step, mac: Mac) {
    (s.UpdateStep? && s.mac == Some(mac)) || (s.AddStep? && s.client == mac)
  }

  lemma SurvivorsShorten(p: Pool, mac: Mac, t: nat)
    requires EndsWithin(p, mac, t)
    ensures EndsWithin(Survivors(p), mac, if t > 0 then t - 1 else 0)
  {
    SurvivorsElements(p);
    forall x | x in Survivors(p) && x.mac == mac ensures x.kind == Dynamic && 1 <= x.timer <= t - 1 {
      var y :| y in p && x == Aged(y);
    }
  }

  lemma MarksDoNotProlong(p: Pool, q: Pool, mac: Mac, t: nat)
    requires EndsWithin(p, mac, t) && OnlyMarks(p, q)
    ensures EndsWithin(q, mac, t)
  {
    forall x | x in q && x.mac == mac ensures x.kind == Dynamic && 1 <= x.timer <= t {
      var y :| y in p && x == y.(state := x.state);
    }
  }

  lemma TickShortens(p: Pool, mac: Mac, t: nat)
    requires EndsWithin(p, mac, t)
    ensures EndsWithin(Tick(p), mac, if t > 0 then t - 1 else 0)
  {
    SurvivorsShorten(p, mac, t);
    TickIs(p);
    if |Survivors(p)| % 0x100 >= MAX_STATION_NUM {
      KillOldestOnlyMarks(Survivors(p));
      MarksDoNotProlong(Survivors(p), KillOldest(Survivors(p)), mac, if t > 0 then t - 1 else 0);
    }
  }

  lemma StepDoesNotProlong(p: Pool, renew: bool, s: Step, c: Config, mac: Mac, t: nat)
    requires EndsWithin(p, mac, t) && !Refreshes(s, mac)
    ensures EndsWithin(Exec(p, renew, s, c).0, mac, if s.TickStep? && t > 0 then t - 1 else t)
  {
    match s
    case UpdateStep(m, ip) =>
      if m.Some? {
        UpdateOnlyRenews(p, m.value, ip, c, renew);
      }
    case LeaveStep(m, ip, force) =>
      LeaveOnlyMarks(p, m, ip, force);
      MarksDoNotProlong(p, ClientLeave(p, m, ip, force), mac, t);
    case AddStep(m) =>
      AddOnlyRenews(p, m, c);
    case TickStep =>
      TickShortens(p, mac, t);
  }

  // EXPIRY. A dynamic lease with t ticks to go that its client does not refresh
  // is gone after t ticks, whatever else happens: whoever claims which address,
  // however the range is configured and however many clients there are.
  lemma {:induction false} AbandonedLeaseExpires(p: Pool, renew: bool, steps: seq<Step>, c: Config, mac: Mac, t: nat)
    requires EndsWithin(p, mac, t) && Ticks(steps) >= t
    requires forall s | s in steps :: !Refreshes(s, mac)
    ensures !Knows(Run(p, renew, steps, c), mac)
    decreases |steps|
  {
    if |steps| == 0 {
      assert forall i | 0 <= i < |p| :: p[i] in p;
    } else {
      StepDoesNotProlong(p, renew, steps[0], c, mac, t);
      var (q, r) := Exec(p, renew, steps[0], c);
      AbandonedLeaseExpires(q, r, steps[1..], c, mac, if steps[0].TickStep? && t > 0 then t - 1 else t);
    }
  }

  // In particular an address handed out on request is free again after
  // dhcps_lease_time ticks without a refresh.
  lemma AssignedLeaseExpires(p: Pool, renew: bool, steps: seq<Step>, c: Config, mac: Mac, ip: Option<Addr>)
    requires UniqueMacs(p) && c.leaseTime >= 1 && (ip.None? || ip == Some(IPADDR_ANY))
    requires Ticks(steps) >= c.leaseTime && forall s | s in steps :: !Refreshes(s, mac)
    ensures var u := ClientUpdate(p, Some(mac), ip, c, renew);
            !Knows(Run(u.pool, u.renew, steps, c), mac)
  {
    AssignedEndsWithin(p, mac, ip, c, renew);
    var u := ClientUpdate(p, Some(mac), ip, c, renew);
    AbandonedLeaseExpires(u.pool, u.renew, steps, c, mac, c.leaseTime);
  }

  lemma AssignedEndsWithin(p: Pool, mac: Mac, ip: Option<Addr>, c: Config, renew: bool)
    requires UniqueMacs(p) && c.leaseTime >= 1 && (ip.None? || ip == Some(IPADDR_ANY))
    ensures EndsWithin(ClientUpdate(p, Some(mac), ip, c, renew).pool, mac, c.leaseTime)
  {
    var k := IndexOfMac(p, mac);
    var l := Lease(Gap(p[..k], c.start), mac, c.leaseTime, Dynamic, Online);
    if k < |p| {
      RemoveElements(p, k);
      InsertElements(RemoveAt(p, k), l);
    } else {
      InsertElements(p, l);
    }
  }
}
