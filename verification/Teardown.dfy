// Closing connections: events are posted to espconn_Task, possibly several for one
// connection, which tells the application and frees the message.

module Teardown {
  import opened Machine
  import opened Lists

  // The MANUALRECV bit of espconn_opt.
  datatype Msg = Msg(manual: bool)

  type Message = Node<Msg>

  datatype Signal = Write | Error | Close

  // What the application does in a terminal callback: set or clear the option
  // of the connection being closed, and open new connections.
  datatype Reaction = Reaction(option: Option<bool>, opens: seq<bool>)

  // Messages just allocated, with these options.
  ghost predicate Opened(ms: seq<Message>, opens: seq<bool>)
    reads ms
  {
    |ms| == |opens| && forall k | 0 <= k < |ms| :: ms[k].data.manual == opens[k]
  }

  class Espconn {
    var plinkActive: Node?<Msg>
    var known: seq<Message>        // every message ever allocated
    var told: seq<Message>          // disconnect and reconnect callbacks
    var freed: seq<Message>
    var finished: seq<Message>      // write_finish callbacks
    ghost var nodes: seq<Message>
    ghost var msgs: seq<Msg>
    ghost var repr: set<Message>

    ghost predicate Shape()
      reads `plinkActive, `nodes, `msgs, `repr, nodes
    {
      && Linked(plinkActive, nodes) && Carries(nodes, msgs)
      && forall i | 0 <= i < |nodes| :: nodes[i] in repr
    }

    // Every message is either active or was freed, once, after its one callback.
    ghost predicate Valid()
      reads this, nodes
    {
      && Shape() && told == freed && DistinctNodes(freed)
      && (forall i | 0 <= i < |freed| :: freed[i] in repr)
      && Roll()
      && (forall n | n in repr :: n in nodes <==> n !in freed)
    }

    // known lists every message once.
    ghost predicate Roll()
      reads `known, `repr
    {
      && DistinctNodes(known)
      && (forall i | 0 <= i < |known| :: known[i] in repr)
      && (forall n | n in repr :: n in known)
    }

    // At most one terminal callback and one free each; nothing freed is active.
    lemma OnceEach()
      requires Valid()
      ensures told == freed
      ensures forall i, j | 0 <= i < j < |freed| :: freed[i] != freed[j]
      ensures forall i | 0 <= i < |freed| :: freed[i] !in nodes
    {
      forall i, j | 0 <= i < j < |freed| ensures freed[i] != freed[j] {
        assert IndexOf(freed, freed[i]) == i && IndexOf(freed, freed[j]) == j;
      }
    }

    constructor ()
      ensures Valid() && known == [] && freed == [] && finished == [] && repr == {}
    {
      plinkActive, known, told, freed, finished, nodes, msgs, repr := null, [], [], [], [], [], [], {};
    }

    // A new connection goes to the end of the active list.
    method Open(manual: bool) returns (m: Message)
      requires Shape() && Roll()
      modifies `plinkActive, `known, `nodes, `msgs, `repr, repr`pnext
      ensures Shape() && Roll() && fresh(m) && known == old(known) + [m] && repr == old(repr) + {m}
      ensures nodes == old(nodes) + [m] && msgs == old(msgs) + [Msg(manual)] && m.data == Msg(manual)
    {
      m := new Node(Msg(manual));
      plinkActive := Append(plinkActive, m, nodes);
      DistinctInsert(known, |known|, m);
      assert InsertAt(known, |known|, m) == known + [m];
      known, nodes, msgs, repr := known + [m], nodes + [m], msgs + [m.data], repr + {m};
    }

    method OpenAll(opens: seq<bool>)
      requires Shape() && Roll()
      modifies `plinkActive, `known, `nodes, `msgs, `repr, repr`pnext
      ensures Shape() && Roll() && old(known) <= known && |known| == |old(known)| + |opens|
      ensures old(repr) <= repr && fresh(repr - old(repr))
      ensures forall n :: n in nodes <==> n in old(nodes) || n in repr - old(repr)
      ensures Opened(known[|old(known)|..], opens)
    {
      var i := 0;
      while i < |opens|
        invariant i <= |opens| && Shape() && Roll() && old(known) <= known && |known| == |old(known)| + i
        invariant old(repr) <= repr && fresh(repr - old(repr))
        invariant forall n :: n in nodes <==> n in old(nodes) || n in repr - old(repr)
        invariant forall k | |old(known)| <= k < |known| :: known[k].data.manual == opens[k - |old(known)|]
      {
        var m := Open(opens[i]);
        i := i + 1;
      }
    }

    // The walk along plink_active at the start of espconn_Task.
    method IsActive(m: Message) returns (active: bool)
      requires Shape()
      ensures active <==> m in nodes
    {
      var p := plinkActive;
      ghost var i := 0;
      active := false;
      while p != null && !active
        invariant i <= |nodes| && p == NodeAt(nodes, i)
        invariant if active then i < |nodes| && nodes[i] == m else forall j | 0 <= j < i :: nodes[j] != m
        decreases !active, |nodes| - i
      {
        if p == m {
          active := true;
        } else {
          p := p.pnext;
          i := i + 1;
        }
      }
    }

    // espconn_list_delete(&plink_active, m)
    method Unlink(m: Message)
      requires Shape()
      modifies `plinkActive, `nodes, `msgs, nodes`pnext
      ensures Shape() && m !in nodes
      ensures m !in old(nodes) ==> nodes == old(nodes) && msgs == old(msgs)
      ensures forall n | n != m :: n in nodes <==> n in old(nodes)
    {
      plinkActive := Delete(plinkActive, m, nodes);
      if m in nodes {
        ghost var k := IndexOf(nodes, m);
        Unlinked(nodes, msgs, k);
        nodes, msgs := RemoveAt(nodes, k), RemoveAt(msgs, k);
        assert Linked(plinkActive, nodes);
        assert forall i | 0 <= i < |nodes| :: nodes[i] in repr;
      }
    }

    // espconn_set_opt or espconn_clear_opt: only an active connection is found.
    method SetOption(m: Message, manual: bool)
      requires Shape()
      modifies `msgs, m`data
      ensures Shape() && m.data == if m in nodes then Msg(manual) else old(m.data)
    {
      var active := IsActive(m);
      if active {
        m.data := Msg(manual);
        msgs := msgs[IndexOf(nodes, m) := m.data];
        forall i | 0 <= i < |nodes| ensures nodes[i].data == msgs[i] {
          assert IndexOf(nodes, nodes[i]) == i;
        }
      }
    }

    // The application's disconnect or reconnect callback.
    method Callback(m: Message, r: Reaction)
      requires Shape() && Roll() && m in repr
      modifies `plinkActive, `known, `told, `nodes, `msgs, `repr, repr
      ensures Shape() && Roll() && old(known) <= known && |known| == |old(known)| + |r.opens|
      ensures told == old(told) + [m]
      ensures old(repr) <= repr && fresh(repr - old(repr))
      ensures forall n :: n in nodes <==> n in old(nodes) || n in repr - old(repr)
      ensures m.data == if r.option.Some? && m in old(nodes) then Msg(r.option.value) else old(m.data)
      ensures forall n | n in old(repr) && n != m :: n.data == old(n.data)
      ensures Opened(known[|old(known)|..], r.opens)
    {
      told := told + [m];
      if r.option.Some? {
        SetOption(m, r.option.value);
      }
      OpenAll(r.opens);
    }

    // Tell the application and free the message. With the option clear the
    // message leaves the list before the callback, with the option set after it.
    method Terminate(m: Message, r: Reaction)
      requires Valid() && m in nodes
      modifies this, repr
      ensures told == old(told) + [m] && freed == old(freed) + [m] && finished == old(finished)
      ensures old(known) <= known && |known| == |old(known)| + |r.opens|
      ensures old(repr) <= repr && fresh(repr - old(repr))
      ensures forall n | n in repr && n != m :: n in nodes <==> n in old(nodes) || n !in old(repr)
      ensures m in nodes <==> old(m.data.manual) && r.option == Some(false)
      ensures m !in nodes ==> Valid()
      ensures forall n | n in old(repr) && n != m :: n.data == old(n.data)
      ensures Opened(known[|old(known)|..], r.opens)
    {
      assert m !in freed;
      TellAndUnlink(m, r);
      DistinctInsert(freed, |freed|, m);
      assert InsertAt(freed, |freed|, m) == freed + [m];
      freed := freed + [m];
    }

    method TellAndUnlink(m: Message, r: Reaction)
      requires Shape() && Roll() && m in nodes
      modifies `plinkActive, `known, `told, `nodes, `msgs, `repr, repr
      ensures Shape() && Roll() && told == old(told) + [m]
      ensures old(known) <= known && |known| == |old(known)| + |r.opens|
      ensures old(repr) <= repr && fresh(repr - old(repr))
      ensures forall n | n != m :: n in nodes <==> n in old(nodes) || n in repr - old(repr)
      ensures m in nodes <==> old(m.data.manual) && r.option == Some(false)
      ensures forall n | n in old(repr) && n != m :: n.data == old(n.data)
      ensures Opened(known[|old(known)|..], r.opens)
    {
      if !m.data.manual {
        Unlink(m);
      }
      Callback(m, r);
      if m.data.manual {
        Unlink(m);
      }
    }

    // espconn_Task: an event for a connection no longer active is ignored.
    method EspconnTask(sig: Signal, m: Message, r: Reaction)
      requires Valid() && m in repr
      modifies this, repr
      ensures old(repr) <= repr && fresh(repr - old(repr))
      ensures m !in old(nodes) ==>
                nodes == old(nodes) && told == old(told) && freed == old(freed) && finished == old(finished)
                && known == old(known)
      ensures m in old(nodes) && sig == Write ==>
                nodes == old(nodes) && told == old(told) && freed == old(freed) && finished == old(finished) + [m]
                && known == old(known)
      ensures m in old(nodes) && sig != Write ==>
                && told == old(told) + [m] && freed == old(freed) + [m] && finished == old(finished)
                && old(known) <= known && |known| == |old(known)| + |r.opens|
      ensures m in old(nodes) && sig != Write ==> Opened(known[|old(known)|..], r.opens)
      ensures forall n | n in old(repr) && (n != m || m !in old(nodes) || sig == Write) :: n.data == old(n.data)
      ensures Valid() <==> !(m in old(nodes) && sig != Write && old(m.data.manual) && r.option == Some(false))
    {
      var active := IsActive(m);
      if active {
        match sig
        case Write => finished := finished + [m];
        case Error => Terminate(m, r);
        case Close => Terminate(m, r);
      }
    }
  }

  lemma Unlinked(ns: seq<Message>, ds: seq<Msg>, k: nat)
    requires k < |ns| && DistinctNodes(ns) && Carries(ns, ds)
    ensures Carries(RemoveAt(ns, k), RemoveAt(ds, k)) && ns[k] !in RemoveAt(ns, k)
    ensures forall n | n != ns[k] :: n in RemoveAt(ns, k) <==> n in ns
    ensures forall i | 0 <= i < |RemoveAt(ns, k)| :: RemoveAt(ns, k)[i] in ns
  {
    CarriesRemove(ns, ds, k);
    DistinctRemove(ns, k);
    assert ns == ns[..k] + [ns[k]] + ns[k + 1..];
  }

  // ----- runs -----

  datatype Event = Connect(manual: bool) | Posted(sig: Signal, i: nat, r: Reaction)

  // Messages by number, in the order they were allocated: the option each was
  // opened with, which were closed, and which had a write finished, in order.
  datatype Record = Record(manual: seq<bool>, closed: seq<nat>, written: seq<nat>)

  // What each event does. Events for a closed connection do nothing.
  function After(h: Record, e: Event): Record {
    match e
    case Connect(manual) => h.(manual := h.manual + [manual])
    case Posted(sig, i, r) =>
      if i >= |h.manual| || i in h.closed then h
      else if sig == Write then h.(written := h.written + [i])
      else h.(manual := h.manual + r.opens, closed := h.closed + [i])
  }

  // The callback of a connection closed with its option set does not clear it.
  predicate GoodEvent(h: Record, e: Event) {
    match e
    case Connect(_) => true
    case Posted(sig, i, r) =>
      sig != Write && i < |h.manual| && i !in h.closed && h.manual[i] ==> r.option != Some(false)
  }

  function Replay(events: seq<Event>): Record {
    if |events| == 0 then Record([], [], [])
    else After(Replay(events[..|events| - 1]), events[|events| - 1])
  }

  ghost predicate Names(known: seq<Message>, ms: seq<Message>, numbers: seq<nat>) {
    |ms| == |numbers| && forall k | 0 <= k < |ms| :: numbers[k] < |known| && ms[k] == known[numbers[k]]
  }

  ghost predicate Recorded(e: Espconn, h: Record)
    reads e, e.known
  {
    && |e.known| == |h.manual| && Names(e.known, e.freed, h.closed) && Names(e.known, e.finished, h.written)
    && OptionsKept(e.known, h)
  }

  // Until it is closed, a connection keeps the option it was opened with.
  ghost predicate OptionsKept(known: seq<Message>, h: Record)
    reads known
  {
    |known| == |h.manual| && forall n | 0 <= n < |known| && n !in h.closed :: known[n].data.manual == h.manual[n]
  }

  // A number is closed exactly when its message was freed.
  lemma ClosedMeansFreed(known: seq<Message>, freed: seq<Message>, closed: seq<nat>, i: nat)
    requires DistinctNodes(known) && Names(known, freed, closed) && i < |known|
    ensures i in closed <==> known[i] in freed
  {
    if i in closed {
      var k :| 0 <= k < |closed| && closed[k] == i;
      assert freed[k] == known[i];
    }
    if known[i] in freed {
      var k :| 0 <= k < |freed| && freed[k] == known[i];
      DistinctAt(known, i, closed[k]);
    }
  }

  lemma NamesMore(known: seq<Message>, more: seq<Message>, ms: seq<Message>, numbers: seq<nat>)
    requires Names(known, ms, numbers) && known <= more
    ensures Names(more, ms, numbers)
  {}

  lemma NamesSnoc(known: seq<Message>, ms: seq<Message>, numbers: seq<nat>, i: nat)
    requires Names(known, ms, numbers) && i < |known|
    ensures Names(known, ms + [known[i]], numbers + [i])
  {}

  lemma SuffixOpened(was: seq<Message>, now: seq<Message>, opens: seq<bool>, n: nat)
    requires was <= now && Opened(now[|was|..], opens) && |was| <= n < |now|
    ensures |now| == |was| + |opens| && now[n].data.manual == opens[n - |was|]
  {
    assert now[|was|..][n - |was|] == now[n];
  }

  lemma KnownElsewhere(e: Espconn, n: nat, i: nat)
    requires e.Valid() && n < |e.known| && i < |e.known| && n != i
    ensures e.known[n] != e.known[i] && e.known[n] in e.repr
  {
    assert IndexOf(e.known, e.known[n]) == n && IndexOf(e.known, e.known[i]) == i;
  }

  // A connect, as the record says.
  method HandleConnect(e: Espconn, manual: bool, ghost h: Record)
    requires e.Valid() && Recorded(e, h)
    modifies e, e.repr
    ensures e.Valid() && Recorded(e, After(h, Connect(manual))) && fresh(e.repr - old(e.repr))
  {
    var m := e.Open(manual);
    NamesMore(old(e.known), e.known, e.freed, h.closed);
    NamesMore(old(e.known), e.known, e.finished, h.written);
  }

  // A posted event, as the record says.
  method HandlePosted(e: Espconn, sig: Signal, i: nat, r: Reaction, ghost h: Record)
    requires e.Valid() && Recorded(e, h) && i < |e.known|
    modifies e, e.repr
    ensures Recorded(e, After(h, Posted(sig, i, r))) && fresh(e.repr - old(e.repr))
    ensures e.Valid() <==> GoodEvent(h, Posted(sig, i, r))
  {
    ghost var known, t := e.known, After(h, Posted(sig, i, r));
    ClosedMeansFreed(e.known, e.freed, h.closed, i);
    NamesSnoc(e.known, e.freed, h.closed, i);
    NamesSnoc(e.known, e.finished, h.written, i);
    forall n | 0 <= n < |known| && n != i ensures known[n] != known[i] && known[n] in e.repr {
      KnownElsewhere(e, n, i);
    }
    e.EspconnTask(sig, e.known[i], r);
    NamesMore(known, e.known, e.freed, t.closed);
    NamesMore(known, e.known, e.finished, t.written);
    if |e.known| > |known| {
      forall n | |known| <= n < |e.known| ensures e.known[n].data.manual == t.manual[n] {
        SuffixOpened(known, e.known, r.opens, n);
      }
    }
  }

  // One event, as the record says. The invariant survives exactly a good one.
  method Handle(e: Espconn, event: Event, ghost h: Record)
    requires e.Valid() && Recorded(e, h)
    modifies e, e.repr
    ensures Recorded(e, After(h, event)) && fresh(e.repr - old(e.repr))
    ensures e.Valid() <==> GoodEvent(h, event)
  {
    match event
    case Connect(manual) =>
      HandleConnect(e, manual, h);
    case Posted(sig, i, r) =>
      if i < |e.known| {
        HandlePosted(e, sig, i, r, h);
      }
  }

  lemma ReplayStep(events: seq<Event>, i: nat)
    requires i < |events|
    ensures Replay(events[..i + 1]) == After(Replay(events[..i]), events[i])
  {
    assert events[..i + 1][..i] == events[..i];
  }

  // A close or an error was posted for message n when there was one.
  ghost predicate PostedFor(events: seq<Event>, n: nat) {
    exists k | 0 <= k < |events| ::
      events[k].Posted? && events[k].sig != Write && events[k].i == n && n < |Replay(events[..k]).manual|
  }

  // EXACTLY ONCE. A connection is closed exactly when a close or error was
  // posted for it after it was opened, and then once.
  lemma {:induction false} ClosedIff(events: seq<Event>, n: nat)
    ensures var closed := Replay(events).closed;
            && (n in closed <==> PostedFor(events, n))
            && (forall i, j | 0 <= i < j < |closed| :: closed[i] != closed[j])
            && (forall i | 0 <= i < |closed| :: closed[i] < |Replay(events).manual|)
  {
    if |events| > 0 {
      var m := |events| - 1;
      ClosedIff(events[..m], n);
      forall k | 0 <= k < m ensures events[..m][..k] == events[..k] {}
      assert Replay(events) == After(Replay(events[..m]), events[m]);
    }
  }

  // Every event meets the record of those before it.
  ghost predicate GoodRun(events: seq<Event>) {
    forall k | 0 <= k < |events| :: GoodEvent(Replay(events[..k]), events[k])
  }

  // Any events in any order, each for any connection ever opened, as often as
  // they are posted, with any callbacks but those that clear the set option of
  // the connection they close. The run does what the
  // record of its events says: exactly the connections with a close or error
  // posted for them are freed.
  method Run(events: seq<Event>) returns (e: Espconn)
    requires GoodRun(events)
    ensures e.Valid() && Recorded(e, Replay(events))
    ensures forall n | 0 <= n < |e.known| :: e.known[n] in e.freed <==> PostedFor(events, n)
  {
    e := new Espconn();
    var i := 0;
    while i < |events|
      invariant i <= |events| && fresh(e) && e.Valid() && fresh(e.repr)
      invariant Recorded(e, Replay(events[..i]))
      decreases |events| - i
    {
      ReplayStep(events, i);
      Handle(e, events[i], Replay(events[..i]));
      i := i + 1;
    }
    assert events[..|events|] == events;
    forall n | 0 <= n < |e.known| ensures e.known[n] in e.freed <==> PostedFor(events, n) {
      ClosedIff(events, n);
      ClosedMeansFreed(e.known, e.freed, Replay(events).closed, n);
    }
  }
}
