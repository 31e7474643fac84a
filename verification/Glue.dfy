// Packets on their way from lwIP 2 to the Espressif blobs. Each packet handed to
// a blob is wrapped, the wrapper holds one reference to the lwIP 2 pbuf, and the
// blob gives the wrapper back when the radio is done.

module Glue {
  import opened Machine
  import opened Lists
  import opened Chains
  import opened GlueErrors
  import opened WrapperPool

  // An lwIP 2 pbuf. ref is its count; held is how many of the references are
  // lwIP 2's own.
  class Pbuf {
    const segments: Chain
    const glued: bool               // PBUF_FLAG_GLUED: allocated for reception
    var ref: nat
    var held: nat

    constructor (segments: Chain, glued: bool, ref: nat, held: nat)
      ensures this.segments == segments && this.glued == glued && this.ref == ref && this.held == held
    {
      this.segments, this.glued, this.ref, this.held := segments, glued, ref, held;
    }
  }

  // What the wrapper keeps: the pbuf to release, and the data the blob sends.
  datatype Frame = Frame(ref2save: Pbuf?, payload: seq<byte>)

  type Wrapper = Node<Frame>

  // What netif->linkoutput does with a packet: refuse it with an error, keep it
  // and free it later, or free it before it returns.
  datatype Answer = Refuses(err: int) | Keeps | FreesAtOnce

  // One more frame in flight, if the blob took it.
  function Taken(frames: seq<Frame>, took: bool, f: Frame): seq<Frame> {
    if took then frames + [f] else frames
  }

  // How many of the frames name p.
  ghost function Count(frames: seq<Frame>, p: Pbuf?): nat {
    if |frames| == 0 then 0
    else Count(frames[..|frames| - 1], p) + if frames[|frames| - 1].ref2save == p then 1 else 0
  }

  lemma CountAppend(frames: seq<Frame>, f: Frame, p: Pbuf?)
    ensures Count(frames + [f], p) == Count(frames, p) + if f.ref2save == p then 1 else 0
  {
    assert (frames + [f])[..|frames|] == frames;
  }

  lemma CountAppends(frames: seq<Frame>, f: Frame, ps: set<Pbuf>)
    ensures forall p | p in ps :: Count(frames + [f], p) == Count(frames, p) + if f.ref2save == p then 1 else 0
  {
    forall p | p in ps
      ensures Count(frames + [f], p) == Count(frames, p) + if f.ref2save == p then 1 else 0
    {
      CountAppend(frames, f, p);
    }
  }

  lemma RemoveBeforeLast(frames: seq<Frame>, k: nat)
    requires k < |frames| - 1
    ensures RemoveAt(frames, k) == RemoveAt(frames[..|frames| - 1], k) + [frames[|frames| - 1]]
  {}

  lemma {:induction false} CountRemove(frames: seq<Frame>, k: nat, p: Pbuf?)
    requires k < |frames|
    ensures Count(frames, p) == Count(RemoveAt(frames, k), p) + if frames[k].ref2save == p then 1 else 0
  {
    var n := |frames| - 1;
    if k < n {
      CountRemove(frames[..n], k, p);
      RemoveBeforeLast(frames, k);
      CountAppend(RemoveAt(frames[..n], k), frames[n], p);
    } else {
      assert RemoveAt(frames, k) == frames[..n];
    }
  }

  lemma {:induction false} CountZero(frames: seq<Frame>, p: Pbuf?)
    requires forall i | 0 <= i < |frames| :: frames[i].ref2save != p
    ensures Count(frames, p) == 0
  {
    if |frames| > 0 {
      CountZero(frames[..|frames| - 1], p);
    }
  }

  // The wrappers the blobs have are exactly those out of the pool.
  ghost predicate InFlight(kept: seq<Wrapper>, frames: seq<Frame>, out: set<Wrapper>)
    reads kept
  {
    && Carries(kept, frames) && DistinctNodes(kept)
    && (forall i | 0 <= i < |kept| :: kept[i] in out)
    && |kept| == |out|
  }

  lemma {:induction false} CountPositive(frames: seq<Frame>, k: nat)
    requires k < |frames|
    ensures Count(frames, frames[k].ref2save) >= 1
  {
    if k < |frames| - 1 {
      CountPositive(frames[..|frames| - 1], k);
    }
  }

  class Link {
    const pool: Pool<Frame>
    var netifEsp: seq<Option<bool>>  // per interface: missing, or whether its link is up
    var kept: seq<Wrapper>           // wrappers the blobs have
    ghost var frames: seq<Frame>
    ghost var pbufs: set<Pbuf>

    // Every count is lwIP's own references plus the wrappers in flight that name
    // the pbuf, plus one for a pbuf the glue is just sending.
    ghost predicate Balanced(sending: Pbuf?)
      reads `frames, `pbufs, pbufs
    {
      && (forall i | 0 <= i < |frames| :: frames[i].ref2save in pbufs)
      && forall p | p in pbufs :: p.ref == p.held + Count(frames, p) + if p == sending then 1 else 0
    }

    ghost predicate Wired()
      reads this, kept, pool, pool.free
    {
      |netifEsp| == 2 && pool.Valid() && InFlight(kept, frames, pool.out)
    }

    ghost predicate Valid()
      reads this, kept, pool, pool.free, pbufs
    {
      Wired() && Balanced(null)
    }

    // A pbuf in flight has references beyond lwIP's own: lwIP cannot free it.
    lemma InFlightIsAlive(k: nat)
      requires Valid() && k < |frames|
      ensures frames[k].ref2save.ref > frames[k].ref2save.held
    {
      CountPositive(frames, k);
    }

    // No wrapper is lost, and the pool never exceeds the peak by a whole block.
    // Once the blobs are done, every count is lwIP's own again: the glue neither
    // kept a reference nor released one twice. Of a copy lwIP holds none (Run).
    lemma NothingLeaks()
      requires Valid()
      ensures |pool.free| + |kept| == 8 * pool.blocks && 8 * pool.blocks <= pool.peak + 7
      ensures |kept| == 0 ==> |pool.free| == 8 * pool.blocks && forall p | p in pbufs :: p.ref == p.held
    {
      if |kept| == 0 {
        forall p | p in pbufs ensures p.ref == p.held {
          CountZero(frames, p);
        }
      }
    }

    constructor ()
      ensures Valid() && fresh(pool) && kept == [] && pbufs == {} && pool.repr == {}
      ensures frames == [] && pool.blocks == 0 && netifEsp == [None, None]
    {
      pool := new Pool();
      netifEsp, kept, frames, pbufs := [None, None], [], [], {};
    }

    // ----- lwIP 2's own references -----

    method Allocate(segments: Chain, glued: bool) returns (p: Pbuf)
      requires Valid()
      modifies `pbufs
      ensures Valid() && fresh(p) && pbufs == old(pbufs) + {p}
      ensures p.segments == segments && p.glued == glued && p.held == 1 && p.ref == 1
    {
      p := new Pbuf(segments, glued, 1, 1);
      CountZero(frames, p);
      pbufs := pbufs + {p};
    }

    method Ref(p: Pbuf)
      requires Valid() && p in pbufs
      modifies p
      ensures Valid() && p.held == old(p.held) + 1 && p.ref == old(p.ref) + 1
    {
      p.ref, p.held := p.ref + 1, p.held + 1;
    }

    method Release(p: Pbuf)
      requires Valid() && p in pbufs && p.held > 0
      modifies p
      ensures Valid() && p.held == old(p.held) - 1 && p.ref == old(p.ref) - 1
    {
      p.ref, p.held := p.ref - 1, p.held - 1;
    }

    // ----- the blob gives a packet back -----

    // esp2glue_pbuf_freed
    method Unref(p: Pbuf, ghost k: nat)
      requires Balanced(null) && k < |frames| && frames[k].ref2save == p
      modifies `frames, p`ref
      ensures Balanced(null) && frames == RemoveAt(old(frames), k)
    {
      ghost var was := frames;
      CountRemove(was, k, p);
      RemoveAtElements(was, k);
      p.ref := p.ref - 1;
      frames := RemoveAt(frames, k);
      forall q | q in pbufs ensures q.ref == q.held + Count(frames, q) {
        CountRemove(was, k, q);
      }
    }

    method TakeBack(w: Wrapper, k: nat, ghost fs: seq<Frame>)
      requires pool.Valid() && InFlight(kept, fs, pool.out) && k < |kept| && kept[k] == w
      modifies `kept, pool, w`pnext
      ensures pool.Valid() && InFlight(kept, RemoveAt(fs, k), pool.out)
      ensures kept == RemoveAt(old(kept), k) && pool.repr == old(pool.repr) && pool.blocks == old(pool.blocks)
    {
      CarriesRemove(kept, fs, k);
      RemoveAtElements(kept, k);
      DistinctRemove(kept, k);
      pool.Release(w);
      kept := RemoveAt(kept, k);
    }

    // pbuf_free on a wrapper: esp2glue_pbuf_freed, then back to the pool.
    method PbufFree(w: Wrapper, k: nat)
      requires Valid() && k < |kept| && kept[k] == w
      modifies `kept, `frames, pool, w`pnext, pbufs`ref
      ensures Valid()
      ensures kept == RemoveAt(old(kept), k) && frames == RemoveAt(old(frames), k)
      ensures pool.repr == old(pool.repr) && pool.blocks == old(pool.blocks)
    {
      ghost var fs := frames;
      Unref(w.data.ref2save, k);
      TakeBack(w, k, fs);
    }

    // ----- sending -----

    // How a send ends.
    ghost function SendError(idx: nat, memory: bool, answer: Answer): int
      requires idx < |netifEsp|
      reads `netifEsp, pool`free
    {
      if netifEsp[idx] != Some(true) then GLUE_IF
      else if |pool.free| == 0 && !memory then GLUE_MEM
      else Esp2GlueErr(if answer.Refuses? then answer.err else ESP_OK)
    }

    // Whether a send has to grow the pool.
    ghost function Growth(idx: nat, memory: bool): nat
      requires idx < |netifEsp|
      reads `netifEsp, pool`free
    {
      if netifEsp[idx] == Some(true) && |pool.free| == 0 && memory then 1 else 0
    }

    // Which failure lwIP 2 sees under which name.
    lemma SendErrorMeans(idx: nat, memory: bool, answer: Answer)
      requires idx < |netifEsp| && (answer.Refuses? ==> answer.err != ESP_OK)
      ensures var e := SendError(idx, memory, answer);
              if netifEsp[idx] != Some(true) then e == -12 && Glue2GitErr(e) == If
              else if |pool.free| == 0 && !memory then e == -1 && Glue2GitErr(e) == Mem
              else if answer.Refuses? then SeenAs(answer.err, Glue2GitErr(e)) && Glue2GitErr(e) != Ok
              else e == 0 && Glue2GitErr(e) == Ok
    {
      if answer.Refuses? {
        NamesCross(answer.err, Ok);
        OnlyOkIsOk(answer.err, Ok);
      }
    }

    lemma SendSucceedsIff(idx: nat, memory: bool, answer: Answer)
      requires idx < |netifEsp| && (answer.Refuses? ==> answer.err != ESP_OK)
      ensures Glue2GitErr(SendError(idx, memory, answer)) == Ok <==>
                netifEsp[idx] == Some(true) && (|pool.free| > 0 || memory) && !answer.Refuses?
    {
      GitOk(SendError(idx, memory, answer));
      EspOk(if answer.Refuses? then answer.err else ESP_OK);
    }

    // The blob has the packet from now on.
    method HandOver(w: Wrapper, p: Pbuf, data: seq<byte>)
      requires pool.Valid() && Balanced(p) && p in pbufs
      requires w in pool.out && InFlight(kept, frames, pool.out - {w}) && w !in kept
      modifies `kept, `frames, w`data
      ensures pool.Valid() && Balanced(null) && InFlight(kept, frames, pool.out)
      ensures kept == old(kept) + [w] && frames == old(frames) + [Frame(p, data)]
    {
      w.data := Frame(p, data);
      CountAppends(frames, w.data, pbufs);
      KeptMore(w);
      kept, frames := kept + [w], frames + [w.data];
    }

    lemma KeptMore(w: Wrapper)
      requires w in pool.out && InFlight(kept, frames, pool.out - {w}) && w !in kept
      ensures InFlight(kept + [w], frames + [w.data], pool.out)
    {
      DistinctInsert(kept, |kept|, w);
      assert InsertAt(kept, |kept|, w) == kept + [w];
    }

    // The packet was refused: the wrapper goes back unused.
    method Refused(w: Wrapper)
      requires pool.Valid() && w in pool.out && InFlight(kept, frames, pool.out - {w}) && w !in kept
      modifies pool, w`pnext
      ensures pool.Valid() && InFlight(kept, frames, pool.out)
      ensures pool.repr == old(pool.repr) && pool.blocks == old(pool.blocks)
    {
      pool.Release(w);
    }

    // netif->linkoutput on a fresh wrapper.
    method Transmit(w: Wrapper, p: Pbuf, data: seq<byte>, answer: Answer) returns (err: int)
      requires |netifEsp| == 2 && pool.Valid() && Balanced(p) && p in pbufs
      requires w in pool.out && w in pool.repr && InFlight(kept, frames, pool.out - {w}) && w !in kept
      requires answer.Refuses? ==> answer.err != ESP_OK
      modifies `kept, `frames, pool, w, pbufs`ref
      ensures Wired() && pool.repr == old(pool.repr) && pool.blocks == old(pool.blocks)
      ensures Balanced(if err == GLUE_OK then null else p)
      ensures err == Esp2GlueErr(if answer.Refuses? then answer.err else ESP_OK)
      ensures frames == Taken(old(frames), answer.Keeps?, Frame(p, data)) && old(kept) <= kept
    {
      if answer.Refuses? {
        EspOk(answer.err);
        Refused(w);
        return Esp2GlueErr(answer.err);
      }
      HandOver(w, p, data);
      if answer.FreesAtOnce? {
        PbufFree(w, |kept| - 1);
      }
      err := Esp2GlueErr(ESP_OK);
    }

    // glue2esp_linkoutput
    method Glue2EspLinkoutput(idx: nat, p: Pbuf, data: seq<byte>, memory: bool, answer: Answer) returns (err: int)
      requires Wired() && Balanced(p) && p in pbufs && idx < 2
      requires answer.Refuses? ==> answer.err != ESP_OK
      modifies `kept, `frames, pool, pool.repr, pbufs`ref
      ensures Wired() && fresh(pool.repr - old(pool.repr))
      ensures Balanced(if err == GLUE_OK then null else p)
      ensures err == old(SendError(idx, memory, answer)) && pool.blocks == old(pool.blocks + Growth(idx, memory))
      ensures netifEsp[idx] != Some(true) ==> err == -12
      ensures netifEsp[idx] == Some(true) && old(|pool.free|) == 0 && !memory ==> err == -1
      ensures frames == Taken(old(frames), err == GLUE_OK && answer.Keeps?, Frame(p, data)) && old(kept) <= kept
    {
      if netifEsp[idx] != Some(true) {
        return GLUE_IF;
      }
      var w := pool.Get(Frame(null, []), memory);
      if w == null {
        return GLUE_MEM;
      }
      assert pool.out - {w} == old(pool.out);
      err := Transmit(w, p, data, answer);
    }

    // What the glue sends for p: p itself with one more reference, or a copy in
    // one piece whose only reference is the glue's.
    method Prepare(p: Pbuf, memory: bool) returns (q: Pbuf?)
      requires Valid() && p in pbufs
      modifies `pbufs, p`ref
      ensures q == null <==> (|p.segments| > 1 || p.glued) && !memory
      ensures q == null ==> Valid() && pbufs == old(pbufs)
      ensures q != null ==> Wired() && Balanced(q) && q in pbufs && q.segments == [Flatten(p.segments)]
      ensures q == p || q == null || fresh(q)
      ensures q != null && q != p ==> q.held == 0
      ensures q == p <==> |p.segments| == 1 && !p.glued
      ensures q != null ==> pbufs == old(pbufs) + {q}
    {
      if |p.segments| > 1 || p.glued {
        if !memory {
          return null;
        }
        q := new Pbuf([Flatten(p.segments)], false, 1, 0);
        CountZero(frames, q);
        pbufs := pbufs + {q};
      } else {
        FlattenOne(p.segments);
        p.ref := p.ref + 1;
        q := p;
      }
    }

    // The glue lets go of what it prepared.
    method Drop(q: Pbuf)
      requires Balanced(q) && q in pbufs
      modifies q`ref
      ensures Balanced(null)
    {
      q.ref := q.ref - 1;
    }

    method SendPrepared(q: Pbuf, idx: nat, memory: bool, answer: Answer) returns (err: LwipErr)
      requires Wired() && Balanced(q) && q in pbufs && idx < 2
      requires answer.Refuses? ==> answer.err != ESP_OK
      modifies `kept, `frames, pool, pool.repr, pbufs`ref
      ensures Valid() && fresh(pool.repr - old(pool.repr))
      ensures err == Glue2GitErr(old(SendError(idx, memory, answer)))
      ensures pool.blocks == old(pool.blocks + Growth(idx, memory))
      ensures frames == Taken(old(frames), err == Ok && answer.Keeps?, Frame(q, q.segments[0])) && old(kept) <= kept
    {
      var e := Glue2EspLinkoutput(idx, q, q.segments[0], memory, answer);
      GitOk(e);
      err := Glue2GitErr(e);
      if err != Ok {
        Drop(q);
      }
    }

    // Prepare the packet and send it.
    method PrepareAndSend(p: Pbuf, idx: nat, cloneMemory: bool, memory: bool, answer: Answer)
      returns (err: LwipErr, ghost sent: Pbuf?)
      requires Valid() && p in pbufs && idx < 2
      requires answer.Refuses? ==> answer.err != ESP_OK
      modifies `kept, `frames, `pbufs, pool, pool.repr, pbufs`ref
      ensures Valid() && fresh(pool.repr - old(pool.repr))
      ensures pbufs == if sent == null then old(pbufs) else old(pbufs) + {sent}
      ensures err == if (|p.segments| > 1 || p.glued) && !cloneMemory then Mem
                     else Glue2GitErr(old(SendError(idx, memory, answer)))
      ensures pool.blocks == old(pool.blocks + if (|p.segments| > 1 || p.glued) && !cloneMemory then 0 else Growth(idx, memory))
      ensures frames == Taken(old(frames), err == Ok && answer.Keeps?, Frame(sent, Flatten(p.segments))) && old(kept) <= kept
      ensures if |p.segments| == 1 && !p.glued then sent == p else sent == null || (fresh(sent) && sent.held == 0)
    {
      var q := Prepare(p, cloneMemory);
      sent := q;
      if q == null {
        return Mem, null;
      }
      err := SendPrepared(q, idx, memory, answer);
    }

    // new_linkoutput. A packet is in flight afterwards exactly when the blob took
    // it and still has it, and then it is the whole packet; on every failure the
    // references are as before.
    method NewLinkoutput(p: Pbuf, idx: nat, cloneMemory: bool, memory: bool, answer: Answer)
      returns (err: LwipErr, ghost sent: Pbuf?)
      requires Valid() && p in pbufs && idx < 2
      requires answer.Refuses? ==> answer.err != ESP_OK
      modifies `kept, `frames, `pbufs, pool, pool.repr, pbufs`ref
      ensures Valid() && fresh(pool.repr - old(pool.repr))
      ensures pbufs == if sent == null then old(pbufs) else old(pbufs) + {sent}
      ensures err == if (|p.segments| > 1 || p.glued) && !cloneMemory then Mem
                     else Glue2GitErr(old(SendError(idx, memory, answer)))
      ensures if (|p.segments| > 1 || p.glued) && !cloneMemory then err == Mem
              else if netifEsp[idx] != Some(true) then err == If
              else if old(|pool.free|) == 0 && !memory then err == Mem
              else if answer.Refuses? then SeenAs(answer.err, err) && err != Ok
              else err == Ok
      ensures pool.blocks == old(pool.blocks + if (|p.segments| > 1 || p.glued) && !cloneMemory then 0 else Growth(idx, memory))
      ensures frames == Taken(old(frames), err == Ok && answer.Keeps?, Frame(sent, Flatten(p.segments))) && old(kept) <= kept
      ensures if |p.segments| == 1 && !p.glued then sent == p else sent == null || (fresh(sent) && sent.held == 0)
    {
      SendErrorMeans(idx, memory, answer);
      err, sent := PrepareAndSend(p, idx, cloneMemory, memory, answer);
    }
  }

  // ----- runs -----

  datatype Event =
    | Alloc(segments: Chain, glued: bool)
    | TakeRef(i: nat)
    | DropRef(i: nat)
    | Send(i: nat, idx: nat, cloneMemory: bool, memory: bool, answer: Answer)
    | BlobFrees(k: nat)
    | LinkChanges(idx: nat, state: Option<bool>)

  // What lwIP and the blobs have, packets by number: how many references lwIP
  // holds to each, what flies and for which packet (none for a copy), how many
  // wrapper blocks there are, and the state of the interfaces.
  datatype Packet = Packet(segments: Chain, glued: bool, held: nat)

  datatype Flight = Flight(owner: Option<nat>, payload: seq<byte>)

  datatype World = World(packets: seq<Packet>, flying: seq<Flight>, blocks: nat, net: seq<Option<bool>>)

  predicate NeedsCopy(p: Packet) {
    |p.segments| > 1 || p.glued
  }

  // How many flights are for packet i.
  function Owned(flying: seq<Flight>, i: nat): nat {
    if |flying| == 0 then 0
    else Owned(flying[..|flying| - 1], i) + if flying[|flying| - 1].owner == Some(i) then 1 else 0
  }

  // Packet i still has a reference: lwIP's own, or a flight.
  predicate Live(w: World, i: nat) {
    i < |w.packets| && (w.packets[i].held > 0 || Owned(w.flying, i) > 0)
  }

  // What each event does. A freed packet is gone for good. A send that cannot go through leaves everything as it
  // was, but for a wrapper block it may have cost.
  function After(w: World, e: Event): World {
    match e
    case Alloc(segments, glued) => w.(packets := w.packets + [Packet(segments, glued, 1)])
    case TakeRef(i) =>
      if !Live(w, i) then w
      else w.(packets := w.packets[i := w.packets[i].(held := w.packets[i].held + 1)])
    case DropRef(i) =>
      if i >= |w.packets| || w.packets[i].held == 0 then w
      else w.(packets := w.packets[i := w.packets[i].(held := w.packets[i].held - 1)])
    case Send(i, idx, cloneMemory, memory, answer) =>
      if Live(w, i) && idx < |w.net| && (answer.Refuses? ==> answer.err != ESP_OK)
      then Sent(w, i, idx, cloneMemory, memory, answer)
      else w
    case BlobFrees(k) =>
      if k >= |w.flying| then w else w.(flying := RemoveAt(w.flying, k))
    case LinkChanges(idx, state) =>
      if idx >= |w.net| then w else w.(net := w.net[idx := state])
  }

  // Whether a send gets as far as the blob.
  predicate Goes(w: World, i: nat, idx: nat, cloneMemory: bool, memory: bool)
    requires i < |w.packets| && idx < |w.net|
  {
    && (NeedsCopy(w.packets[i]) ==> cloneMemory) && w.net[idx] == Some(true)
    && (|w.flying| == 8 * w.blocks ==> memory)
  }

  function FlightOf(p: Packet, i: nat): Flight {
    Flight(if NeedsCopy(p) then None else Some(i), Flatten(p.segments))
  }

  function Sent(w: World, i: nat, idx: nat, cloneMemory: bool, memory: bool, answer: Answer): World
    requires i < |w.packets| && idx < |w.net|
  {
    var goes := Goes(w, i, idx, cloneMemory, memory);
    w.(blocks := w.blocks + (if goes && |w.flying| == 8 * w.blocks then 1 else 0),
       flying := w.flying + if goes && answer.Keeps? then [FlightOf(w.packets[i], i)] else [])
  }

  function Replay(events: seq<Event>): World {
    if |events| == 0 then World([], [], 0, [None, None])
    else After(Replay(events[..|events| - 1]), events[|events| - 1])
  }

  ghost predicate DistinctPbufs(mine: seq<Pbuf>) {
    forall i, j | 0 <= i < j < |mine| :: mine[i] != mine[j]
  }

  ghost predicate Packets(mine: seq<Pbuf>, packets: seq<Packet>)
    reads mine
  {
    |mine| == |packets| && forall i | 0 <= i < |mine| ::
      packets[i] == Packet(mine[i].segments, mine[i].glued, mine[i].held)
  }

  ghost predicate Flights(mine: seq<Pbuf>, frames: seq<Frame>, flying: seq<Flight>) {
    |frames| == |flying| && forall k | 0 <= k < |frames| :: IsFlight(mine, frames[k], flying[k])
  }

  ghost predicate IsFlight(mine: seq<Pbuf>, f: Frame, g: Flight) {
    && f.payload == g.payload
    && if g.owner.Some? then g.owner.value < |mine| && f.ref2save == mine[g.owner.value]
       else f.ref2save !in mine
  }

  ghost predicate Shows(l: Link, mine: seq<Pbuf>, w: World)
    reads l, l.pool, mine
  {
    && DistinctPbufs(mine) && Packets(mine, w.packets)
    && (forall i | 0 <= i < |mine| :: mine[i] in l.pbufs)
    && Flights(mine, l.frames, w.flying)
    && l.pool.blocks == w.blocks && l.netifEsp == w.net
  }

  // What an observer can say of the link and lwIP's packets.
  ghost function Worlds(l: Link, mine: seq<Pbuf>): iset<World>
    reads l, l.pool, mine
  {
    iset w: World | Shows(l, mine, w)
  }

  // lwIP holds no reference to a copy: only flights keep it alive.
  ghost predicate CopiesUnheld(l: Link, mine: seq<Pbuf>)
    reads l`pbufs, l.pbufs`held
  {
    forall q | q in l.pbufs && q !in mine :: q.held == 0
  }

  lemma FlightsRemove(mine: seq<Pbuf>, frames: seq<Frame>, flying: seq<Flight>, k: nat)
    requires Flights(mine, frames, flying) && k < |frames|
    ensures Flights(mine, RemoveAt(frames, k), RemoveAt(flying, k))
  {
    RemoveAtElements(frames, k);
    RemoveAtElements(flying, k);
  }

  lemma FlightsAppend(mine: seq<Pbuf>, frames: seq<Frame>, flying: seq<Flight>, f: Frame, g: Flight)
    requires Flights(mine, frames, flying) && IsFlight(mine, f, g)
    ensures Flights(mine, frames + [f], flying + [g])
  {}

  lemma FlightsMore(mine: seq<Pbuf>, frames: seq<Frame>, flying: seq<Flight>, p: Pbuf)
    requires Flights(mine, frames, flying) && forall k | 0 <= k < |frames| :: frames[k].ref2save != p
    ensures Flights(mine + [p], frames, flying)
  {}

  lemma {:induction false} OwnedIsCount(mine: seq<Pbuf>, frames: seq<Frame>, flying: seq<Flight>, i: nat)
    requires DistinctPbufs(mine) && Flights(mine, frames, flying) && i < |mine|
    ensures Count(frames, mine[i]) == Owned(flying, i)
  {
    if |frames| > 0 {
      var n := |frames| - 1;
      OwnedIsCount(mine, frames[..n], flying[..n], i);
      assert IsFlight(mine, frames[n], flying[n]);
    }
  }

  // The count in memory tells whether a packet is live.
  lemma LiveIff(l: Link, mine: seq<Pbuf>, w: World, i: nat)
    requires l.Valid() && w in Worlds(l, mine) && i < |mine|
    ensures mine[i].ref > 0 <==> Live(w, i)
  {
    OwnedIsCount(mine, l.frames, w.flying, i);
  }

  lemma {:induction false} OwnedAfterRemove(flying: seq<Flight>, k: nat, i: nat)
    requires k < |flying|
    ensures Owned(RemoveAt(flying, k), i) <= Owned(flying, i)
  {
    var n := |flying| - 1;
    if k < n {
      OwnedAfterRemove(flying[..n], k, i);
      assert RemoveAt(flying, k)[..n - 1] == RemoveAt(flying[..n], k);
    } else {
      assert RemoveAt(flying, k) == flying[..n];
    }
  }

  lemma OwnedAfterSend(w: World, j: nat, idx: nat, cloneMemory: bool, memory: bool, answer: Answer, i: nat)
    requires j < |w.packets| && idx < |w.net| && i != j
    ensures Owned(Sent(w, j, idx, cloneMemory, memory, answer).flying, i) == Owned(w.flying, i)
  {
    if Goes(w, j, idx, cloneMemory, memory) && answer.Keeps? {
      var f := FlightOf(w.packets[j], j);
      assert (w.flying + [f])[..|w.flying|] == w.flying;
    } else {
      assert w.flying + [] == w.flying;
    }
  }

  // Freed before, and the same packet freed after.
  ghost predicate StaysFreed(w: World, v: World, i: nat)
    requires i < |w.packets|
  {
    i < |v.packets| && v.packets[i] == w.packets[i] && (Owned(w.flying, i) == 0 ==> Owned(v.flying, i) == 0)
  }

  lemma FreedAfterSend(w: World, e: Event, i: nat)
    requires e.Send? && i < |w.packets| && !Live(w, i)
    ensures StaysFreed(w, After(w, e), i)
  {
    if Live(w, e.i) && e.idx < |w.net| && (e.answer.Refuses? ==> e.answer.err != ESP_OK) {
      OwnedAfterSend(w, e.i, e.idx, e.cloneMemory, e.memory, e.answer, i);
    }
  }

  lemma FreedAfterFree(w: World, k: nat, i: nat)
    requires i < |w.packets|
    ensures StaysFreed(w, After(w, BlobFrees(k)), i)
  {
    if k < |w.flying| {
      OwnedAfterRemove(w.flying, k, i);
    }
  }

  lemma FreedAfterRest(w: World, e: Event, i: nat)
    requires !e.Send? && !e.BlobFrees? && i < |w.packets| && !Live(w, i)
    ensures StaysFreed(w, After(w, e), i)
  {
    assert After(w, e).flying == w.flying;
  }

  // A freed packet stays freed, whatever happens to the others.
  lemma FreedStaysFreed(w: World, e: Event, i: nat)
    requires i < |w.packets| && !Live(w, i)
    ensures i < |After(w, e).packets| && !Live(After(w, e), i) && After(w, e).packets[i] == w.packets[i]
  {
    if e.Send? {
      FreedAfterSend(w, e, i);
    } else if e.BlobFrees? {
      FreedAfterFree(w, e.k, i);
    } else {
      FreedAfterRest(w, e, i);
    }
  }

  method AllocOne(l: Link, mine: seq<Pbuf>, segments: Chain, glued: bool, ghost w: World) returns (now: seq<Pbuf>)
    requires l.Valid() && w in Worlds(l, mine) && CopiesUnheld(l, mine)
    modifies l`pbufs
    ensures l.Valid() && After(w, Alloc(segments, glued)) in Worlds(l, now) && CopiesUnheld(l, now)
    ensures fresh(l.pbufs - old(l.pbufs))
  {
    var p := l.Allocate(segments, glued);
    FlightsMore(mine, l.frames, w.flying, p);
    now := mine + [p];
  }

  // lwIP takes or drops a reference.
  method RefOne(l: Link, mine: seq<Pbuf>, i: nat, take: bool, ghost w: World)
    requires l.Valid() && w in Worlds(l, mine) && i < |mine| && (if take then Live(w, i) else mine[i].held > 0)
    requires CopiesUnheld(l, mine)
    modifies l.pbufs
    ensures l.Valid() && CopiesUnheld(l, mine)
    ensures After(w, if take then TakeRef(i) else DropRef(i)) in Worlds(l, mine)
  {
    if take {
      l.Ref(mine[i]);
    } else {
      l.Release(mine[i]);
    }
  }

  method LinkOne(l: Link, mine: seq<Pbuf>, idx: nat, state: Option<bool>, ghost w: World)
    requires l.Valid() && w in Worlds(l, mine) && idx < 2
    modifies l`netifEsp
    ensures l.Valid() && After(w, LinkChanges(idx, state)) in Worlds(l, mine)
  {
    l.netifEsp := l.netifEsp[idx := state];
  }

  method FreeOne(l: Link, mine: seq<Pbuf>, k: nat, ghost w: World)
    requires l.Valid() && w in Worlds(l, mine) && k < |l.kept|
    modifies l`kept, l`frames, l.pool, l.pool.repr, l.pbufs`ref
    ensures l.Valid() && After(w, BlobFrees(k)) in Worlds(l, mine)
    ensures l.pool.repr == old(l.pool.repr)
  {
    FlightsRemove(mine, l.frames, w.flying, k);
    l.PbufFree(l.kept[k], k);
  }

  lemma FlightsTaken(mine: seq<Pbuf>, frames: seq<Frame>, flying: seq<Flight>, took: bool, f: Frame, g: Flight)
    requires Flights(mine, frames, flying) && (took ==> IsFlight(mine, f, g))
    ensures Flights(mine, Taken(frames, took, f), flying + if took then [g] else [])
  {
    if took {
      FlightsAppend(mine, frames, flying, f, g);
    } else {
      assert flying + [] == flying;
    }
  }

  // Whether a send of p gets as far as the blob.
  ghost predicate GetsThrough(l: Link, p: Pbuf, idx: nat, cloneMemory: bool, memory: bool)
    requires idx < |l.netifEsp|
    reads l, l.pool
  {
    && (|p.segments| > 1 || p.glued ==> cloneMemory) && l.netifEsp[idx] == Some(true)
    && (|l.frames| == 8 * l.pool.blocks ==> memory)
  }

  method SendIt(l: Link, p: Pbuf, idx: nat, cloneMemory: bool, memory: bool, answer: Answer) returns (ghost sent: Pbuf?)
    requires l.Valid() && p in l.pbufs && idx < 2 && (answer.Refuses? ==> answer.err != ESP_OK)
    modifies l`kept, l`frames, l`pbufs, l.pool, l.pool.repr, l.pbufs`ref
    ensures l.Valid() && old(l.pbufs) <= l.pbufs
    ensures fresh(l.pool.repr - old(l.pool.repr)) && fresh(l.pbufs - old(l.pbufs))
    ensures var goes := old(GetsThrough(l, p, idx, cloneMemory, memory));
            && l.frames == Taken(old(l.frames), goes && answer.Keeps?, Frame(sent, Flatten(p.segments)))
            && l.pool.blocks == old(l.pool.blocks) + if goes && |old(l.frames)| == 8 * old(l.pool.blocks) then 1 else 0
    ensures if |p.segments| == 1 && !p.glued then sent == p else sent == null || fresh(sent)
    ensures forall q | q in l.pbufs :: q in old(l.pbufs) || q.held == 0
  {
    var err;
    l.SendSucceedsIff(idx, memory, answer);
    l.NothingLeaks();
    err, sent := l.NewLinkoutput(p, idx, cloneMemory, memory, answer);
  }

  lemma SentShows(l: Link, mine: seq<Pbuf>, i: nat, idx: nat, cloneMemory: bool, memory: bool, answer: Answer, w: World,
                  frames: seq<Frame>, sent: Pbuf?)
    requires DistinctPbufs(mine) && Packets(mine, w.packets) && forall i | 0 <= i < |mine| :: mine[i] in l.pbufs
    requires Flights(mine, frames, w.flying) && l.netifEsp == w.net && i < |mine| && idx < |w.net| && Live(w, i)
    requires answer.Refuses? ==> answer.err != ESP_OK
    requires if NeedsCopy(w.packets[i]) then sent !in mine else sent == mine[i]
    requires var goes := Goes(w, i, idx, cloneMemory, memory);
             && l.frames == Taken(frames, goes && answer.Keeps?, Frame(sent, Flatten(mine[i].segments)))
             && l.pool.blocks == w.blocks + if goes && |w.flying| == 8 * w.blocks then 1 else 0
    ensures After(w, Send(i, idx, cloneMemory, memory, answer)) in Worlds(l, mine)
  {
    var goes := Goes(w, i, idx, cloneMemory, memory);
    FlightsTaken(mine, frames, w.flying, goes && answer.Keeps?, Frame(sent, Flatten(mine[i].segments)), FlightOf(w.packets[i], i));
  }

  method SendOne(l: Link, mine: seq<Pbuf>, i: nat, idx: nat, cloneMemory: bool, memory: bool, answer: Answer, ghost w: World)
    requires l.Valid() && w in Worlds(l, mine) && i < |mine| && idx < 2 && Live(w, i)
    requires CopiesUnheld(l, mine) && (answer.Refuses? ==> answer.err != ESP_OK)
    modifies l`kept, l`frames, l`pbufs, l.pool, l.pool.repr, l.pbufs`ref
    ensures l.Valid() && After(w, Send(i, idx, cloneMemory, memory, answer)) in Worlds(l, mine)
    ensures CopiesUnheld(l, mine)
    ensures fresh(l.pool.repr - old(l.pool.repr)) && fresh(l.pbufs - old(l.pbufs))
  {
    ghost var frames := l.frames;
    ghost var sent := SendIt(l, mine[i], idx, cloneMemory, memory, answer);
    assert sent !in mine || sent == mine[i];
    SentShows(l, mine, i, idx, cloneMemory, memory, answer, w, frames, sent);
  }

  // A freed packet is neither referenced nor sent again.
  method TryRef(l: Link, mine: seq<Pbuf>, i: nat, ghost w: World)
    requires l.Valid() && w in Worlds(l, mine) && i < |mine| && CopiesUnheld(l, mine)
    modifies l.pbufs
    ensures l.Valid() && CopiesUnheld(l, mine) && After(w, TakeRef(i)) in Worlds(l, mine)
  {
    LiveIff(l, mine, w, i);
    if mine[i].ref > 0 {
      RefOne(l, mine, i, true, w);
    }
  }

  method TrySend(l: Link, mine: seq<Pbuf>, i: nat, idx: nat, cloneMemory: bool, memory: bool, answer: Answer, ghost w: World)
    requires l.Valid() && w in Worlds(l, mine) && i < |mine| && idx < 2
    requires CopiesUnheld(l, mine) && (answer.Refuses? ==> answer.err != ESP_OK)
    modifies l`kept, l`frames, l`pbufs, l.pool, l.pool.repr, l.pbufs`ref
    ensures l.Valid() && After(w, Send(i, idx, cloneMemory, memory, answer)) in Worlds(l, mine)
    ensures CopiesUnheld(l, mine)
    ensures fresh(l.pool.repr - old(l.pool.repr)) && fresh(l.pbufs - old(l.pbufs))
  {
    LiveIff(l, mine, w, i);
    if mine[i].ref > 0 {
      SendOne(l, mine, i, idx, cloneMemory, memory, answer, w);
    }
  }

  // One event; indices pick one of lwIP's pbufs, or a packet the blobs have.
  method Step(l: Link, mine: seq<Pbuf>, e: Event, ghost w: World) returns (now: seq<Pbuf>)
    requires l.Valid() && w in Worlds(l, mine) && CopiesUnheld(l, mine)
    modifies l, l.pool, l.pool.repr, l.pbufs
    ensures l.Valid() && After(w, e) in Worlds(l, now) && CopiesUnheld(l, now)
    ensures fresh(l.pool.repr - old(l.pool.repr)) && fresh(l.pbufs - old(l.pbufs))
  {
    now := mine;
    match e
    case Alloc(segments, glued) =>
      now := AllocOne(l, mine, segments, glued, w);
    case TakeRef(i) =>
      if i < |mine| {
        TryRef(l, mine, i, w);
      }
    case DropRef(i) =>
      if i < |mine| && mine[i].held > 0 {
        RefOne(l, mine, i, false, w);
      }
    case Send(i, idx, cloneMemory, memory, answer) =>
      if i < |mine| && idx < 2 && (answer.Refuses? ==> answer.err != ESP_OK) {
        TrySend(l, mine, i, idx, cloneMemory, memory, answer, w);
      }
    case BlobFrees(k) =>
      if k < |l.kept| {
        FreeOne(l, mine, k, w);
      }
    case LinkChanges(idx, state) =>
      if idx < 2 {
        LinkOne(l, mine, idx, state, w);
      }
  }

  lemma ReplayStep(events: seq<Event>, i: nat)
    requires i < |events|
    ensures Replay(events[..i + 1]) == After(Replay(events[..i]), events[i])
  {
    assert events[..i + 1][..i] == events[..i];
  }

  // Counts, as the world tells them.
  lemma Counts(l: Link, mine: seq<Pbuf>, w: World)
    requires l.Valid() && w in Worlds(l, mine) && CopiesUnheld(l, mine)
    ensures forall i | 0 <= i < |mine| :: mine[i].ref == w.packets[i].held + Owned(w.flying, i)
    ensures forall q | q in l.pbufs && q !in mine :: q.ref == Count(l.frames, q)
    ensures |l.kept| == 0 ==> forall q | q in l.pbufs && q !in mine :: q.ref == 0
  {
    l.NothingLeaks();
    forall k | 0 <= k < |mine| ensures mine[k].ref == w.packets[k].held + Owned(w.flying, k) {
      OwnedIsCount(mine, l.frames, w.flying, k);
    }
  }

  lemma StartShows(l: Link, mine: seq<Pbuf>, events: seq<Event>)
    requires |mine| == 0 && l.frames == [] && l.pool.blocks == 0 && l.netifEsp == [None, None]
    ensures Replay(events[..0]) in Worlds(l, mine)
  {}

  method Start(events: seq<Event>) returns (l: Link, mine: seq<Pbuf>)
    ensures fresh(l) && fresh(l.pool) && fresh(l.pool.repr) && fresh(l.pbufs)
    ensures l.Valid() && CopiesUnheld(l, mine) && Replay(events[..0]) in Worlds(l, mine)
  {
    l := new Link();
    mine := [];
    StartShows(l, mine, events);
  }

  // Every run, from nothing, ends as its events say. Every packet's count is what
  // lwIP then holds plus its flights, every copy's count is its flights alone, and
  // once the blobs are done every copy is free: nothing is leaked or released twice.
  method Run(events: seq<Event>) returns (l: Link, mine: seq<Pbuf>)
    ensures fresh(l) && l.Valid() && Shows(l, mine, Replay(events))
    ensures forall i | 0 <= i < |mine| ::
              mine[i].ref == Replay(events).packets[i].held + Owned(Replay(events).flying, i)
    ensures forall q | q in l.pbufs && q !in mine :: q.ref == Count(l.frames, q)
    ensures |l.kept| == 0 ==> forall q | q in l.pbufs && q !in mine :: q.ref == 0
  {
    l, mine := Start(events);
    var i := 0;
    while i < |events|
      invariant i <= |events|
      invariant l.Valid() && fresh(l) && fresh(l.pool) && fresh(l.pool.repr) && fresh(l.pbufs)
      invariant Replay(events[..i]) in Worlds(l, mine) && CopiesUnheld(l, mine)
      decreases |events| - i
    {
      ReplayStep(events, i);
      mine := Step(l, mine, events[i], Replay(events[..i]));
      i := i + 1;
    }
    assert events[..|events|] == events;
    Counts(l, mine, Replay(events));
  }
}
