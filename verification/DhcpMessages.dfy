// DHCP requests: the option walk of parse_options, the decision it leads to,
// and the whole of parse_msg on the lease pool (RFC 2131 section 4.3; the
// options are those of RFC 2132).

module DhcpMessages {
  import opened Machine
  import opened Addresses
  import opened LeasePool
  import opened PoolProperties
  import opened PoolRuns

  const OPTION_REQ_IPADDR: byte := 50
  const OPTION_MSG_TYPE: byte := 53
  const OPTION_END: byte := 255

  const DHCPDISCOVER: byte := 1
  const DHCPREQUEST: byte := 3
  const DHCPDECLINE: byte := 4
  const DHCPRELEASE: byte := 7

  const MAGIC_COOKIE: seq<byte> := [0x63, 0x82, 0x53, 0x63]

  // The server's answer; Nothing is the 0 of a message without the cookie.
  datatype Verdict = Nothing | Offer | Ack | Nak | Idle | Release

  // The fields parse_msg reads. options is the whole buffer after the header.
  datatype Message = Message(ciaddr: Addr, chaddr: Mac, options: seq<byte>)

  // ----- the option walk -----

  // What the walk sees of one option.
  datatype Seen = MsgType(kind: byte) | Requested(addr: Addr) | Other(code: byte)

  // The walk reads inside the buffer. It treats every code but 255 as one with
  // a length byte and stops at len, which counts from the first option.
  ghost predicate ReadsInside(buf: seq<byte>, len: int, i: nat)
    decreases len - i
  {
    i < len ==>
      && i < |buf|
      && (buf[i] != OPTION_END ==>
          && i + 1 < |buf|
          && (buf[i] == OPTION_MSG_TYPE ==> i + 2 < |buf|)
          && (buf[i] == OPTION_REQ_IPADDR ==> i + 5 < |buf|)
          && ReadsInside(buf, len, i + buf[i + 1] + 2))
  }

  function SeenAt(buf: seq<byte>, i: nat): Seen
    requires i < |buf|
    requires buf[i] == OPTION_MSG_TYPE ==> i + 2 < |buf|
    requires buf[i] == OPTION_REQ_IPADDR ==> i + 5 < |buf|
  {
    if buf[i] == OPTION_MSG_TYPE then MsgType(buf[i + 2])
    else if buf[i] == OPTION_REQ_IPADDR then Requested(Addr(buf[i + 2], buf[i + 3], buf[i + 4], buf[i + 5]))
    else Other(buf[i])
  }

  function Walk(buf: seq<byte>, len: int, i: nat): seq<Seen>
    requires ReadsInside(buf, len, i)
    decreases len - i
  {
    if i >= len || buf[i] == OPTION_END then []
    else [SeenAt(buf, i)] + Walk(buf, len, i + buf[i + 1] + 2)
  }

  // The last message type, 0 if there is none.
  function MessageType(s: seq<Seen>): byte {
    if |s| == 0 then 0
    else if s[|s| - 1].MsgType? then s[|s| - 1].kind
    else MessageType(s[..|s| - 1])
  }

  // The last requested address.
  function LastRequested(s: seq<Seen>): Option<Addr> {
    if |s| == 0 then None
    else if s[|s| - 1].Requested? then Some(s[|s| - 1].addr)
    else LastRequested(s[..|s| - 1])
  }

  // What the requested-address option says.
  function Compared(asked: Option<Addr>, client: Addr): Verdict {
    if asked.None? then Idle else if asked.value == client then Ack else Nak
  }

  function Decide(s: seq<Seen>, client: Addr, renew: bool): Verdict {
    var asked := LastRequested(s);
    var matching := Compared(asked, client);
    var kind := MessageType(s);
    if kind == DHCPDISCOVER then Offer
    else if kind == DHCPREQUEST then
      if asked.Some? then matching else if renew then Ack else Nak
    else if kind == DHCPDECLINE then Idle
    else if kind == DHCPRELEASE then Release
    else matching
  }

  // ----- well-formed option lists -----

  datatype RawOption = RawOption(code: byte, data: seq<byte>)

  predicate WellFormedOption(o: RawOption) {
    && o.code != OPTION_END && |o.data| < TWO_8
    && (o.code == OPTION_MSG_TYPE ==> |o.data| == 1)
    && (o.code == OPTION_REQ_IPADDR ==> |o.data| == 4)
  }

  function Meaning(o: RawOption): Seen
    requires WellFormedOption(o)
  {
    if o.code == OPTION_MSG_TYPE then MsgType(o.data[0])
    else if o.code == OPTION_REQ_IPADDR then Requested(Addr(o.data[0], o.data[1], o.data[2], o.data[3]))
    else Other(o.code)
  }

  function Header(o: RawOption): seq<byte>
    requires WellFormedOption(o)
  {
    [o.code, |o.data|]
  }

  function Encode(os: seq<RawOption>): seq<byte>
    requires forall o | o in os :: WellFormedOption(o)
  {
    if |os| == 0 then [0xFF]
    else
      Header(os[0]) + os[0].data + Encode(os[1..])
  }

  function Meanings(os: seq<RawOption>): seq<Seen>
    requires forall o | o in os :: WellFormedOption(o)
  {
    if |os| == 0 then [] else [Meaning(os[0])] + Meanings(os[1..])
  }

  // ----- what an option list says, code by code (RFC 2132) -----

  // Its last message type option, 53, carries t.
  ghost predicate HasType(os: seq<RawOption>, t: byte) {
    exists i | 0 <= i < |os| ::
      os[i].code == 53 && os[i].data == [t] && forall j | i < j < |os| :: os[j].code != 53
  }

  ghost predicate HasNoType(os: seq<RawOption>) {
    forall i | 0 <= i < |os| :: os[i].code != 53
  }

  // Its last requested address option, 50, names a.
  ghost predicate AsksFor(os: seq<RawOption>, a: Addr) {
    exists i | 0 <= i < |os| ::
      os[i].code == 50 && os[i].data == [a.o1, a.o2, a.o3, a.o4] && forall j | i < j < |os| :: os[j].code != 50
  }

  ghost predicate AsksForNothing(os: seq<RawOption>) {
    forall i | 0 <= i < |os| :: os[i].code != 50
  }

  lemma {:induction false} MeaningsAt(os: seq<RawOption>)
    requires forall o | o in os :: WellFormedOption(o)
    ensures |Meanings(os)| == |os| && forall k | 0 <= k < |os| :: Meanings(os)[k] == Meaning(os[k])
  {
    if |os| > 0 {
      MeaningsAt(os[1..]);
    }
  }

  lemma {:induction false} LastTypeAt(s: seq<Seen>, i: nat)
    requires i < |s| && s[i].MsgType? && forall j | i < j < |s| :: !s[j].MsgType?
    ensures MessageType(s) == s[i].kind
  {
    if i < |s| - 1 {
      LastTypeAt(s[..|s| - 1], i);
    }
  }

  lemma {:induction false} NoTypeSeen(s: seq<Seen>)
    requires forall j | 0 <= j < |s| :: !s[j].MsgType?
    ensures MessageType(s) == 0
  {
    if |s| > 0 {
      NoTypeSeen(s[..|s| - 1]);
    }
  }

  lemma {:induction false} LastAskedAt(s: seq<Seen>, i: nat)
    requires i < |s| && s[i].Requested? && forall j | i < j < |s| :: !s[j].Requested?
    ensures LastRequested(s) == Some(s[i].addr)
  {
    if i < |s| - 1 {
      LastAskedAt(s[..|s| - 1], i);
    }
  }

  lemma {:induction false} NothingAsked(s: seq<Seen>)
    requires forall j | 0 <= j < |s| :: !s[j].Requested?
    ensures LastRequested(s) == None
  {
    if |s| > 0 {
      NothingAsked(s[..|s| - 1]);
    }
  }

  lemma TypeIs(os: seq<RawOption>, t: byte)
    requires forall o | o in os :: WellFormedOption(o)
    ensures HasType(os, t) ==> MessageType(Meanings(os)) == t
    ensures HasNoType(os) ==> MessageType(Meanings(os)) == 0
  {
    MeaningsAt(os);
    if HasType(os, t) {
      var i :| 0 <= i < |os| && os[i].code == 53 && os[i].data == [t] && forall j | i < j < |os| :: os[j].code != 53;
      LastTypeAt(Meanings(os), i);
    }
    if HasNoType(os) {
      NoTypeSeen(Meanings(os));
    }
  }

  lemma AskedIs(os: seq<RawOption>, a: Addr)
    requires forall o | o in os :: WellFormedOption(o)
    ensures AsksFor(os, a) ==> LastRequested(Meanings(os)) == Some(a)
    ensures AsksForNothing(os) ==> LastRequested(Meanings(os)) == None
  {
    MeaningsAt(os);
    if AsksFor(os, a) {
      var i :| 0 <= i < |os| && os[i].code == 50 && os[i].data == [a.o1, a.o2, a.o3, a.o4]
               && forall j | i < j < |os| :: os[j].code != 50;
      LastAskedAt(Meanings(os), i);
    }
    if AsksForNothing(os) {
      NothingAsked(Meanings(os));
    }
  }

  lemma WalkStep(before: seq<byte>, o: RawOption, rest: seq<byte>, len: int)
    requires WellFormedOption(o)
    requires var buf := before + (Header(o) + o.data + rest);
             ReadsInside(buf, len, |before| + 2 + |o.data|)
    requires |before| < len
    ensures var buf := before + (Header(o) + o.data + rest);
            && ReadsInside(buf, len, |before|)
            && Walk(buf, len, |before|) == [Meaning(o)] + Walk(buf, len, |before| + 2 + |o.data|)
  {
    var buf := before + (Header(o) + o.data + rest);
    var i := |before|;
    assert buf[i] == o.code && buf[i + 1] == |o.data|;
    assert forall k | 0 <= k < |o.data| :: buf[i + 2 + k] == o.data[k];
  }

  // ROUND TRIP. Walking an encoded option list gives back its meaning, whatever
  // precedes it and follows its end mark.
  lemma {:induction false} WalkOfEncoded(before: seq<byte>, os: seq<RawOption>, after: seq<byte>, len: int)
    requires forall o | o in os :: WellFormedOption(o)
    requires |before| + |Encode(os)| <= len
    ensures var buf := before + (Encode(os) + after);
            ReadsInside(buf, len, |before|) && Walk(buf, len, |before|) == Meanings(os)
    decreases |os|
  {
    if os != [] {
      var o, tail := os[0], os[1..];
      var head := Header(o) + o.data;
      WalkOfEncoded(before + head, tail, after, len);
      assert (before + head) + (Encode(tail) + after) == before + (head + (Encode(tail) + after));
      assert Encode(os) + after == head + (Encode(tail) + after);
      WalkStep(before, o, Encode(tail) + after, len);
    }
  }

  // ----- parse_msg -----

  datatype Outcome = Outcome(pool: Pool, verdict: Verdict, client: Addr, renew: bool)

  ghost predicate ReadableMessage(m: Message, len: int) {
    |m.options| >= 4 && (m.options[..4] == MAGIC_COOKIE ==> ReadsInside(m.options[4..], len, 0))
  }

  // What follows the decision: a RELEASE gives up the claimed address.
  function Concluded(u: Update, v: Verdict, m: Message): Outcome {
    if v == Release then Outcome(ClientLeave(u.pool, Some(m.chaddr), Some(m.ciaddr), true), v, m.ciaddr, u.renew)
    else Outcome(u.pool, v, u.reply, u.renew)
  }

  function ParseMsg(p: Pool, m: Message, len: int, c: Config, client: Addr, renew: bool): Outcome
    requires ReadableMessage(m, len)
  {
    if m.options[..4] != MAGIC_COOKIE then Outcome(p, Nothing, client, renew)
    else
      var u := ClientUpdate(p, Some(m.chaddr), Some(m.ciaddr), c, renew);
      Concluded(u, Decide(Walk(m.options[4..], len, 0), u.reply, u.renew), m)
  }

  // ----- what each message draws -----

  // A message with these options, as it arrives: the magic cookie of RFC 2131
  // section 3, the options, and whatever is left of the buffer.
  function Arriving(mac: Mac, ciaddr: Addr, os: seq<RawOption>, after: seq<byte>): Message
    requires forall o | o in os :: WellFormedOption(o)
  {
    Message(ciaddr, mac, [0x63, 0x82, 0x53, 0x63] + (Encode(os) + after))
  }

  lemma ArrivingIs(p: Pool, mac: Mac, ciaddr: Addr, os: seq<RawOption>, after: seq<byte>, len: int, c: Config,
                   client: Addr, renew: bool)
    requires (forall o | o in os :: WellFormedOption(o)) && |Encode(os)| <= len
    ensures var m := Arriving(mac, ciaddr, os, after);
            var u := ClientUpdate(p, Some(mac), Some(ciaddr), c, renew);
            && ReadableMessage(m, len)
            && ParseMsg(p, m, len, c, client, renew) == Concluded(u, Decide(Meanings(os), u.reply, u.renew), m)
  {
    var m := Arriving(mac, ciaddr, os, after);
    WalkOfEncoded([], os, after, len);
    assert m.options[..4] == MAGIC_COOKIE && m.options[4..] == [] + (Encode(os) + after);
  }

  // THE ANSWER TO A MESSAGE, by its type. The client update comes first in any
  // case; DISCOVER (1) is offered its address, REQUEST (3) acknowledged exactly
  // when it asks for that address or, asking for none, renews; DECLINE (4) is
  // ignored; RELEASE (7) gives the address up; any other message only compares.
  lemma AnswerIs(p: Pool, mac: Mac, ciaddr: Addr, os: seq<RawOption>, after: seq<byte>, len: int, c: Config,
                 client: Addr, renew: bool)
    requires (forall o | o in os :: WellFormedOption(o)) && |Encode(os)| <= len
    ensures var m := Arriving(mac, ciaddr, os, after);
            var u := ClientUpdate(p, Some(mac), Some(ciaddr), c, renew);
            && ReadableMessage(m, len)
            && var r := ParseMsg(p, m, len, c, client, renew);
               && (HasType(os, 1) ==> r == Outcome(u.pool, Offer, u.reply, u.renew))
               && (HasType(os, 4) ==> r == Outcome(u.pool, Idle, u.reply, u.renew))
               && (HasType(os, 7) ==>
                   r == Outcome(ClientLeave(u.pool, Some(mac), Some(ciaddr), true), Release, ciaddr, u.renew))
               && (HasType(os, 3) && AsksForNothing(os) ==>
                   r == Outcome(u.pool, if u.renew then Ack else Nak, u.reply, u.renew))
               && (HasType(os, 3) ==> forall a | AsksFor(os, a) ::
                   r == Outcome(u.pool, if a == u.reply then Ack else Nak, u.reply, u.renew))
  {
    ArrivingIs(p, mac, ciaddr, os, after, len, c, client, renew);
    TypeIs(os, 1);
    TypeIs(os, 3);
    TypeIs(os, 4);
    TypeIs(os, 7);
    AskedIs(os, IPADDR_ANY);
    forall a | AsksFor(os, a) ensures LastRequested(Meanings(os)) == Some(a) {
      AskedIs(os, a);
    }
  }

  // A message of no type or a type the server does not know.
  lemma OtherTypesOnlyCompare(p: Pool, mac: Mac, ciaddr: Addr, os: seq<RawOption>, after: seq<byte>, len: int, c: Config,
                              client: Addr, renew: bool, t: byte)
    requires (forall o | o in os :: WellFormedOption(o)) && |Encode(os)| <= len
    requires HasNoType(os) || (HasType(os, t) && t != 1 && t != 3 && t != 4 && t != 7)
    ensures var m := Arriving(mac, ciaddr, os, after);
            var u := ClientUpdate(p, Some(mac), Some(ciaddr), c, renew);
            && ReadableMessage(m, len)
            && var r := ParseMsg(p, m, len, c, client, renew);
               && (AsksForNothing(os) ==> r == Outcome(u.pool, Idle, u.reply, u.renew))
               && forall a | AsksFor(os, a) :: r == Outcome(u.pool, if a == u.reply then Ack else Nak, u.reply, u.renew)
  {
    ArrivingIs(p, mac, ciaddr, os, after, len, c, client, renew);
    TypeIs(os, t);
    AskedIs(os, IPADDR_ANY);
    forall a | AsksFor(os, a) ensures LastRequested(Meanings(os)) == Some(a) {
      AskedIs(os, a);
    }
  }

  // Without the cookie nothing happens.
  lemma WrongCookie(p: Pool, m: Message, len: int, c: Config, client: Addr, renew: bool)
    requires |m.options| >= 4 && m.options[..4] != [0x63, 0x82, 0x53, 0x63]
    ensures ReadableMessage(m, len) && ParseMsg(p, m, len, c, client, renew) == Outcome(p, Nothing, client, renew)
  {
    assert MAGIC_COOKIE == [0x63, 0x82, 0x53, 0x63];
  }

  // No other client holds a, and every smaller address of the range is another's.
  ghost predicate SmallestFree(p: Pool, mac: Mac, a: Addr, c: Config) {
    && InRange(a, c) && !HeldByOther(p, mac, a)
    && forall x | InRange(x, c) && Host(x) < Host(a) :: HeldByOther(p, mac, x)
  }

  // DISCOVER. A client without an address is offered the smallest one no other
  // client holds, and has it; only when there is none, and the client is new, is
  // it offered 0.0.0.0.
  lemma DiscoverIsOffered(p: Pool, mac: Mac, os: seq<RawOption>, after: seq<byte>, len: int, c: Config,
                          client: Addr, renew: bool)
    requires PoolOk(p, c) && (forall o | o in os :: WellFormedOption(o)) && |Encode(os)| <= len && HasType(os, 1)
    ensures var m := Arriving(mac, IPADDR_ANY, os, after);
            && ReadableMessage(m, len)
            && var r := ParseMsg(p, m, len, c, client, renew);
               && r.verdict == Offer && !r.renew
               && if !Knows(p, mac) && forall x | InRange(x, c) :: HeldByOther(p, mac, x)
                  then r.client == IPADDR_ANY && r.pool == p
                  else SmallestFree(p, mac, r.client, c) && BoundOnlyTo(r.pool, mac, r.client)
  {
    AnswerIs(p, mac, IPADDR_ANY, os, after, len, c, client, renew);
    AssignsSmallestFree(p, mac, Some(IPADDR_ANY), c, renew);
    AcceptedIsBound(p, mac, IPADDR_ANY, c, renew);
  }

  // REQUEST. One that names an address is acknowledged exactly when that is the
  // address the server replies, which for a client without one is the smallest
  // free. One that names none is acknowledged exactly when the sender already
  // holds the address it sends from. All others draw a NAK.
  lemma RequestIsAnswered(p: Pool, mac: Mac, ciaddr: Addr, os: seq<RawOption>, after: seq<byte>, len: int, c: Config,
                          client: Addr, renew: bool, a: Addr)
    requires PoolOk(p, c) && (forall o | o in os :: WellFormedOption(o)) && |Encode(os)| <= len && HasType(os, 3)
    ensures var m := Arriving(mac, ciaddr, os, after);
            && ReadableMessage(m, len)
            && var r := ParseMsg(p, m, len, c, client, renew);
               && (AsksFor(os, a) ==> r.verdict == if a == r.client then Ack else Nak)
               && (AsksFor(os, a) && ciaddr == IPADDR_ANY && a != IPADDR_ANY ==>
                   (r.verdict == Ack <==> SmallestFree(p, mac, a, c)))
               && (AsksForNothing(os) && ciaddr != IPADDR_BROADCAST ==>
                   r.verdict == if exists x :: x in p && x.mac == mac && x.ip == ciaddr then Ack else Nak)
  {
    AnswerIs(p, mac, ciaddr, os, after, len, c, client, renew);
    AssignsSmallestFree(p, mac, Some(IPADDR_ANY), c, renew);
    if ciaddr != IPADDR_BROADCAST {
      RenewsIff(p, mac, ciaddr, c, renew);
    }
    if SmallestFree(p, mac, a, c) {
      SmallestIsUnique(p, mac, a, c);
    }
  }

  lemma SmallestIsUnique(p: Pool, mac: Mac, a: Addr, c: Config)
    requires SmallestFree(p, mac, a, c)
    ensures forall b | SmallestFree(p, mac, b, c) :: a == b
  {
    forall b | SmallestFree(p, mac, b, c) ensures a == b {
      RawOrderIsHostOrder(a, b);
    }
  }

  // The renew flag after an update: the client holds the address it names.
  lemma RenewsIff(p: Pool, mac: Mac, ciaddr: Addr, c: Config, renew: bool)
    requires PoolOk(p, c) && ciaddr != IPADDR_BROADCAST
    ensures ClientUpdate(p, Some(mac), Some(ciaddr), c, renew).renew <==> exists x :: x in p && x.mac == mac && x.ip == ciaddr
  {
    forall x | x in p ensures InRange(x.ip, c) {
      var i :| 0 <= i < |p| && p[i] == x;
    }
    if ciaddr == IPADDR_ANY {
      AssignsSmallestFree(p, mac, Some(ciaddr), c, renew);
    } else if InRange(ciaddr, c) {
      ClaimRefusedIff(p, mac, ciaddr, c, renew);
    } else {
      ClaimOutside(p, mac, ciaddr, c, renew);
    }
  }

  // The pool binds a, ONLINE, to this client and to no other.
  ghost predicate BoundOnlyTo(p: Pool, mac: Mac, a: Addr) {
    && (exists l :: l in p && l.mac == mac && l.ip == a && l.state == Online)
    && (forall l | l in p && (l.ip == a || l.mac == mac) :: l.ip == a && l.mac == mac)
  }

  // WHEN THE POOL REFUSES A SENDER, known before the message is looked at: its
  // ciaddr is the broadcast address; or it is 0, the client is unknown and other
  // clients hold every address of the range; or another client holds it ONLINE;
  // or it lies outside the range, looks larger than the end, and the client is
  // unknown.
  ghost predicate Refused(p: Pool, mac: Mac, ciaddr: Addr, c: Config) {
    || ciaddr == IPADDR_BROADCAST
    || (ciaddr == IPADDR_ANY && !Knows(p, mac) && forall x | InRange(x, c) :: HeldByOther(p, mac, x))
    || (exists x :: x in p && x.ip == ciaddr && x.mac != mac && x.state == Online)
    || (Outside(ciaddr, c) && !Knows(p, mac) && Below(c.end, ciaddr))
  }

  lemma RefusedIff(p: Pool, mac: Mac, ciaddr: Addr, c: Config, renew: bool)
    requires PoolOk(p, c)
    ensures var u := ClientUpdate(p, Some(mac), Some(ciaddr), c, renew);
            && (u.reply == IPADDR_ANY <==> Refused(p, mac, ciaddr, c))
            && (u.reply == IPADDR_ANY ==> u.pool == p && (u.renew <==> ciaddr == IPADDR_BROADCAST && renew))
  {
    forall x | x in p ensures InRange(x.ip, c) {
      var i :| 0 <= i < |p| && p[i] == x;
    }
    if ciaddr == IPADDR_ANY {
      AssignsSmallestFree(p, mac, Some(ciaddr), c, renew);
    } else if InRange(ciaddr, c) {
      ClaimRefusedIff(p, mac, ciaddr, c, renew);
      UpdateBinds(p, mac, Some(ciaddr), c, renew);
      RenewMeansBound(p, mac, ciaddr, c, renew);
    } else if ciaddr != IPADDR_BROADCAST {
      ClaimOutside(p, mac, ciaddr, c, renew);
    }
  }

  lemma RenewMeansBound(p: Pool, mac: Mac, a: Addr, c: Config, renew: bool)
    requires PoolOk(p, c) && InRange(a, c)
    ensures var u := ClientUpdate(p, Some(mac), Some(a), c, renew);
            u.renew ==> u.reply != IPADDR_ANY
  {}

  // A message that draws an ACK although the pool refused its sender: it asks
  // for 0.0.0.0, or it carries the broadcast address as its own while the renew
  // flag of an earlier message is still up.
  ghost predicate AckedUnbound(p: Pool, m: Message, s: seq<Seen>, c: Config, renew: bool) {
    && Refused(p, m.chaddr, m.ciaddr, c)
    && MessageType(s) != DHCPDISCOVER && MessageType(s) != DHCPDECLINE && MessageType(s) != DHCPRELEASE
    && (LastRequested(s) == Some(IPADDR_ANY)
        || (LastRequested(s).None? && MessageType(s) == DHCPREQUEST && m.ciaddr == IPADDR_BROADCAST && renew))
  }

  lemma RebindsBinds(p: Pool, q: Pool, l: Lease)
    requires Rebinds(p, q, l) && l.state == Online
    ensures BoundOnlyTo(q, l.mac, l.ip)
  {
    assert l in q;
  }

  lemma NobodyHasZero(p: Pool, mac: Mac, c: Config)
    requires PoolOk(p, c)
    ensures forall l | l in p :: l.ip != IPADDR_ANY
    ensures !BoundOnlyTo(p, mac, IPADDR_ANY)
  {
    forall l | l in p ensures l.ip != IPADDR_ANY {
      var i :| 0 <= i < |p| && p[i] == l;
    }
  }

  // Whatever address the sender names, an update that is not refused binds it.
  lemma AcceptedIsBound(p: Pool, mac: Mac, ip: Addr, c: Config, renew: bool)
    requires PoolOk(p, c)
    ensures var u := ClientUpdate(p, Some(mac), Some(ip), c, renew);
            BoundOnlyTo(u.pool, mac, u.reply) <==> u.reply != IPADDR_ANY
  {
    var u := ClientUpdate(p, Some(mac), Some(ip), c, renew);
    NobodyHasZero(p, mac, c);
    if GoodRequest(Some(ip), c) {
      UpdateBinds(p, mac, Some(ip), c, renew);
      if u.reply != IPADDR_ANY {
        RebindsBinds(p, u.pool, Lease(u.reply, mac, c.leaseTime, if ip != IPADDR_ANY && !u.renew then Static else Dynamic, Online));
      }
    } else {
      ClaimOutside(p, mac, ip, c, renew);
      if u.reply != IPADDR_ANY {
        RebindsBinds(p, u.pool, Lease(ip, mac, c.leaseTime, Static, Online));
      }
    }
  }

  // ACK SAFETY. Whenever the server acknowledges, the reply address is the one
  // the pool now binds, ONLINE, to the sender and to no other client - exactly
  // unless the message is one that is acknowledged although it was refused.
  lemma AckIsBoundIff(p: Pool, m: Message, len: int, c: Config, client: Addr, renew: bool)
    requires PoolOk(p, c) && ReadableMessage(m, len)
    requires m.options[..4] == MAGIC_COOKIE
    ensures var r := ParseMsg(p, m, len, c, client, renew);
            var s := Walk(m.options[4..], len, 0);
            r.verdict == Ack ==> (BoundOnlyTo(r.pool, m.chaddr, r.client) <==> !AckedUnbound(p, m, s, c, renew))
  {
    AcceptedIsBound(p, m.chaddr, m.ciaddr, c, renew);
    RefusedIff(p, m.chaddr, m.ciaddr, c, renew);
  }

  // In particular for the clients RFC 2131 section 4.3.2 describes: ciaddr 0 or
  // an address of the range, and no request for address 0.
  lemma AckIsSafe(p: Pool, m: Message, len: int, c: Config, client: Addr, renew: bool)
    requires PoolOk(p, c) && ReadableMessage(m, len)
    requires m.ciaddr == IPADDR_ANY || InRange(m.ciaddr, c)
    requires m.options[..4] == MAGIC_COOKIE ==> LastRequested(Walk(m.options[4..], len, 0)) != Some(IPADDR_ANY)
    ensures var r := ParseMsg(p, m, len, c, client, renew);
            r.verdict == Ack ==> BoundOnlyTo(r.pool, m.chaddr, r.client)
  {
    if m.options[..4] == MAGIC_COOKIE {
      AckIsBoundIff(p, m, len, c, client, renew);
    }
  }

  // The stale flag at work: a REQUEST that names the broadcast address as its
  // own, after somebody else's renewal, is acknowledged with address 0.
  lemma StaleRenewIsAcked(p: Pool, c: Config, mac: Mac, client: Addr)
    ensures var m := Message(IPADDR_BROADCAST, mac, MAGIC_COOKIE + [OPTION_MSG_TYPE, 1, DHCPREQUEST, OPTION_END]);
            && ReadableMessage(m, 4)
            && ParseMsg(p, m, 4, c, client, true) == Outcome(p, Ack, IPADDR_ANY, true)
  {
    var body := [OPTION_MSG_TYPE, 1, DHCPREQUEST, OPTION_END];
    var m := Message(IPADDR_BROADCAST, mac, MAGIC_COOKIE + body);
    assert m.options[..4] == MAGIC_COOKIE && m.options[4..] == body;
    assert ReadsInside(body, 4, 3);
    assert Walk(body, 4, 3) == [];
    var s := [MsgType(DHCPREQUEST)];
    assert Walk(body, 4, 0) == s;
    assert MessageType(s) == DHCPREQUEST;
    assert s[..0] == [] && LastRequested(s) == None;
  }

  // A refused sender that requests 0.0.0.0 is acknowledged: nothing is bound.
  lemma RefusedZeroIsAcked(p: Pool, mac: Mac, ciaddr: Addr, os: seq<RawOption>, after: seq<byte>, len: int, c: Config,
                           client: Addr, renew: bool)
    requires PoolOk(p, c) && Refused(p, mac, ciaddr, c)
    requires (forall o | o in os :: WellFormedOption(o)) && |Encode(os)| <= len
    requires HasType(os, 3) && AsksFor(os, IPADDR_ANY)
    ensures var m := Arriving(mac, ciaddr, os, after);
            && ReadableMessage(m, len)
            && var r := ParseMsg(p, m, len, c, client, renew);
               r.verdict == Ack && r.pool == p && r.client == IPADDR_ANY && !BoundOnlyTo(r.pool, mac, r.client)
  {
    AnswerIs(p, mac, ciaddr, os, after, len, c, client, renew);
    RefusedIff(p, mac, ciaddr, c, renew);
    AcceptedIsBound(p, mac, ciaddr, c, renew);
  }

  // Such options.
  lemma ZeroRequest()
    ensures var os := [RawOption(53, [3]), RawOption(50, [0, 0, 0, 0])];
            HasType(os, 3) && AsksFor(os, IPADDR_ANY) && forall o | o in os :: WellFormedOption(o)
  {
    var os := [RawOption(53, [3]), RawOption(50, [0, 0, 0, 0])];
    assert os[0].data == [3] && os[1].data == [0, 0, 0, 0];
  }

  // RELEASE. A release that names the sender's bound address takes both the
  // sender and the address out of the pool.
  lemma ReleaseFrees(p: Pool, m: Message, len: int, c: Config, client: Addr, renew: bool)
    requires PoolOk(p, c) && ReadableMessage(m, len)
    requires exists l :: l in p && l.mac == m.chaddr && l.ip == m.ciaddr
    ensures var r := ParseMsg(p, m, len, c, client, renew);
            r.verdict == Release ==> !Knows(r.pool, m.chaddr) && !Held(r.pool, m.ciaddr) && PoolOk(r.pool, c)
  {
    var l :| l in p && l.mac == m.chaddr && l.ip == m.ciaddr;
    var i :| 0 <= i < |p| && p[i] == l;
    ReleaseLeavesIff(p, m, len, c, client, renew);
    forall x | x in p && x.ip == m.ciaddr ensures x == l {
      AddressesDistinct(p);
      var j :| 0 <= j < |p| && p[j] == x;
    }
  }

  // WHO IS LEFT AFTER A RELEASE naming an address of the range: the sender only
  // if it was there before and the address is another client's, still ONLINE.
  // Unless that client stands in the way, the address is free afterwards.
  lemma ReleaseLeavesIff(p: Pool, m: Message, len: int, c: Config, client: Addr, renew: bool)
    requires PoolOk(p, c) && ReadableMessage(m, len)
    requires InRange(m.ciaddr, c)
    ensures var r := ParseMsg(p, m, len, c, client, renew);
            var blocked := exists x :: x in p && x.ip == m.ciaddr && x.mac != m.chaddr && x.state == Online;
            r.verdict == Release ==>
              && PoolOk(r.pool, c)
              && (Knows(r.pool, m.chaddr) <==> Knows(p, m.chaddr) && blocked)
              && (Held(r.pool, m.ciaddr) <==> blocked)
  {
    UpdateBinds(p, m.chaddr, Some(m.ciaddr), c, renew);
    ClaimRefusedIff(p, m.chaddr, m.ciaddr, c, renew);
    UpdateThenLeave(p, m.chaddr, m.ciaddr, c, renew);
  }

  // A release naming an address outside the range takes out whatever lease the
  // sender has, and nothing else; one naming the broadcast address does nothing.
  lemma ReleaseOutside(p: Pool, m: Message, len: int, c: Config, client: Addr, renew: bool)
    requires PoolOk(p, c) && ReadableMessage(m, len)
    requires Outside(m.ciaddr, c) || m.ciaddr == IPADDR_BROADCAST
    ensures var r := ParseMsg(p, m, len, c, client, renew);
            r.verdict == Release ==>
              if m.ciaddr == IPADDR_BROADCAST then r.pool == p
              else
                && PoolOk(r.pool, c) && !Knows(r.pool, m.chaddr)
                && forall x :: x in r.pool <==> x in p && x.mac != m.chaddr
  {
    if m.ciaddr == IPADDR_BROADCAST {
      NobodyHasBroadcast(p, m.chaddr, c);
    } else {
      ForcedLeaveOutside(p, m.chaddr, m.ciaddr, c, renew);
      WithoutClientOk(p, m.chaddr, c);
    }
  }

  lemma NobodyHasBroadcast(p: Pool, mac: Mac, c: Config)
    requires PoolOk(p, c)
    ensures ClientLeave(p, Some(mac), Some(IPADDR_BROADCAST), true) == p
  {
    forall x | x in p ensures x.ip != IPADDR_BROADCAST {
      var i :| 0 <= i < |p| && p[i] == x;
      assert InRange(p[i].ip, c);
    }
    LeaveOfStranger(p, mac, IPADDR_BROADCAST, true);
  }

  lemma ForcedLeaveOutside(p: Pool, mac: Mac, a: Addr, c: Config, renew: bool)
    requires PoolOk(p, c) && Outside(a, c)
    ensures ClientLeave(ClientUpdate(p, Some(mac), Some(a), c, renew).pool, Some(mac), Some(a), true) == WithoutClient(p, mac)
  {
    ClaimOutside(p, mac, a, c, renew);
    if !Knows(p, mac) && Below(c.end, a) {
      forall x | x in p ensures x.mac != mac {
        var i :| 0 <= i < |p| && p[i] == x;
      }
      LeaveOfStranger(p, mac, a, true);
      assert WithoutClient(p, mac) == p;
    } else {
      WithoutClientOk(p, mac, c);
      LeaveUndoesInsert(WithoutClient(p, mac), Lease(a, mac, c.leaseTime, Static, Online));
    }
  }

  lemma UpdateThenLeave(p: Pool, mac: Mac, a: Addr, c: Config, renew: bool)
    requires PoolOk(p, c) && InRange(a, c)
    ensures var u := ClientUpdate(p, Some(mac), Some(a), c, renew);
            var q := ClientLeave(u.pool, Some(mac), Some(a), true);
            if u.reply == IPADDR_ANY then q == p && Held(p, a)
            else PoolOk(q, c) && !Knows(q, mac) && !Held(q, a)
  {
    var u := ClientUpdate(p, Some(mac), Some(a), c, renew);
    UpdateBinds(p, mac, Some(a), c, renew);
    if u.reply == IPADDR_ANY {
      ClaimRefusedIff(p, mac, a, c, renew);
      var x :| x in p && x.ip == a && x.mac != mac && x.state == Online;
      OthersAddress(p, x, mac);
      var i :| 0 <= i < |p| && p[i] == x;
    } else {
      var l := Lease(a, mac, c.leaseTime, if u.renew then Dynamic else Static, Online);
      assert l in u.pool;
      LeaveEffect(u.pool, l, true, c);
    }
  }

  lemma OthersAddress(p: Pool, x: Lease, mac: Mac)
    requires StrictlySorted(p) && x in p && x.mac != mac
    ensures ClientLeave(p, Some(mac), Some(x.ip), true) == p
  {
    forall y | y in p ensures !(y.mac == mac && y.ip == x.ip) {
      if y.ip == x.ip {
        AddressIsKey(p, x, y);
      }
    }
    LeaveOfStranger(p, mac, x.ip, true);
  }

  lemma AddressIsKey(p: Pool, x: Lease, y: Lease)
    requires StrictlySorted(p) && x in p && y in p && x.ip == y.ip
    ensures x == y
  {
    AddressesDistinct(p);
    var i :| 0 <= i < |p| && p[i] == x;
    var j :| 0 <= j < |p| && p[j] == y;
  }

  // A release that names no address does the opposite of releasing: the update
  // made before the options are read binds the sender, and the leave matches
  // nothing. The sender is known afterwards exactly if it was, or if some address
  // was left for it.
  lemma ReleaseWithoutAddressBinds(p: Pool, m: Message, len: int, c: Config, client: Addr, renew: bool)
    requires PoolOk(p, c) && ReadableMessage(m, len) && m.ciaddr == IPADDR_ANY
    ensures var r := ParseMsg(p, m, len, c, client, renew);
            var left := exists x :: InRange(x, c) && !HeldByOther(p, m.chaddr, x);
            r.verdict == Release ==>
              && (Knows(r.pool, m.chaddr) <==> Knows(p, m.chaddr) || left)
              && (Knows(p, m.chaddr) || left ==>
                  exists a :: InRange(a, c) && BoundOnlyTo(r.pool, m.chaddr, a))
              && (!Knows(p, m.chaddr) && !left ==> r.pool == p)
  {
    UnaddressedUpdate(p, m.chaddr, c, renew);
  }

  lemma UnaddressedUpdate(p: Pool, mac: Mac, c: Config, renew: bool)
    requires PoolOk(p, c)
    ensures var u := ClientUpdate(p, Some(mac), Some(IPADDR_ANY), c, renew);
            var left := exists x :: InRange(x, c) && !HeldByOther(p, mac, x);
            && ClientLeave(u.pool, Some(mac), Some(IPADDR_ANY), true) == u.pool
            && (u.reply == IPADDR_ANY <==> !Knows(p, mac) && !left)
            && (u.reply == IPADDR_ANY ==> u.pool == p)
            && (u.reply != IPADDR_ANY ==>
                InRange(u.reply, c) && BoundOnlyTo(u.pool, mac, u.reply) && Knows(u.pool, mac))
  {
    var u := ClientUpdate(p, Some(mac), Some(IPADDR_ANY), c, renew);
    UpdateBinds(p, mac, Some(IPADDR_ANY), c, renew);
    AssignsSmallestFree(p, mac, Some(IPADDR_ANY), c, renew);
    NobodyHasZero(u.pool, mac, c);
    LeaveOfStranger(u.pool, mac, IPADDR_ANY, true);
    if u.reply != IPADDR_ANY {
      var l := Lease(u.reply, mac, c.leaseTime, Dynamic, Online);
      RebindsBinds(p, u.pool, l);
      assert l in u.pool;
      var i :| 0 <= i < |u.pool| && u.pool[i] == l;
    }
  }

  // A forced leave of the claimed address takes back even what the claim spoilt.
  lemma ForcedLeaveRestores(p: Pool, mac: Mac, a: Addr, c: Config, renew: bool)
    requires PoolOk(p, c)
    ensures PoolOk(ClientLeave(ClientUpdate(p, Some(mac), Some(a), c, renew).pool, Some(mac), Some(a), true), c)
  {
    var u := ClientUpdate(p, Some(mac), Some(a), c, renew);
    UpdateKeepsOkIff(p, mac, Some(a), c, renew);
    if PoolOk(u.pool, c) {
      LeaveKeepsOk(u.pool, mac, a, true, c);
    } else {
      ClaimOutside(p, mac, a, c, renew);
      WithoutClientOk(p, mac, c);
      LeaveUndoesInsert(WithoutClient(p, mac), Lease(a, mac, c.leaseTime, Static, Online));
    }
  }

  // A message keeps the pool well formed exactly if its update does, or if it is
  // a RELEASE.
  lemma MessageKeepsOkIff(p: Pool, m: Message, len: int, c: Config, client: Addr, renew: bool)
    requires PoolOk(p, c) && ReadableMessage(m, len)
    ensures PoolOk(ParseMsg(p, m, len, c, client, renew).pool, c) <==>
              || m.options[..4] != MAGIC_COOKIE || MessageType(Walk(m.options[4..], len, 0)) == DHCPRELEASE
              || KeepsPool(p, m.chaddr, Some(m.ciaddr), c)
  {
    if m.options[..4] == MAGIC_COOKIE {
      var u := ClientUpdate(p, Some(m.chaddr), Some(m.ciaddr), c, renew);
      UpdateKeepsOkIff(p, m.chaddr, Some(m.ciaddr), c, renew);
      ForcedLeaveRestores(p, m.chaddr, m.ciaddr, c, renew);
      ReleaseByType(Walk(m.options[4..], len, 0), u.reply, u.renew);
    }
  }

  lemma ReleaseByType(s: seq<Seen>, client: Addr, renew: bool)
    ensures Decide(s, client, renew) == Release <==> MessageType(s) == DHCPRELEASE
  {}
}
