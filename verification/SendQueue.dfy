// The TCP send path of one connection: the linked queue of payloads, the cursor
// ptail, the retrying write and the acknowledgement loop. Every method is proved
// to take steps of the state machine in SendStream.

module SendQueue {
  import opened Machine
  import opened Lists
  import opened SendStream

  const ERR_OK := 0
  const ERR_MEM := -1
  const ESPCONN_OK := 0
  const ESPCONN_MEM := -1
  const ESPCONN_MAXNUM := -7
  const ESPCONN_ARG := -12

  // lwIP's side of the connection, as far as the send path sees it.
  class TcpPcb {
    const mss: uint16
    const sndQueueMax: nat          // TCP_SND_QUEUELEN
    var sndBuf: uint16
    var sndQueuelen: nat
    const nagleDisabled: bool       // tcp_nagle_disabled
    var stream: seq<byte>           // every byte tcp_write has taken
    ghost var log: seq<LwipCall>        // every call of tcp_write and tcp_output

    constructor (mss: uint16, queueMax: nat, sndBuf: uint16, nagleDisabled: bool)
      ensures this.mss == mss && sndQueueMax == queueMax && stream == []
    {
      this.mss, sndQueueMax := mss, queueMax;
      this.nagleDisabled := nagleDisabled;
      this.sndBuf, sndQueuelen, stream, log := sndBuf, 0, [], [];
    }

    predicate Blocked()
      reads this
    {
      nagleDisabled && sndQueuelen >= sndQueueMax
    }

    // lwIP takes all of the data or none of it, and never more than it has room
    // for; which errors it returns otherwise is up to it.
    method TcpWrite(data: seq<byte>) returns (err: int)
      modifies this
      ensures err == ERR_OK ==>
                |data| <= old(sndBuf) && stream == old(stream) + data && sndBuf == old(sndBuf) - |data|
      ensures err != ERR_OK ==> stream == old(stream) && sndBuf == old(sndBuf)
      ensures log == old(log) + [Try(|data|, err)]
    {
      err := *;
      sndQueuelen := *;
      if err == ERR_OK && |data| > sndBuf {
        err := ERR_MEM;
      }
      if err == ERR_OK {
        sndBuf := sndBuf - |data|;
        stream := stream + data;
      }
      log := log + [Try(|data|, err)];
    }

    method TcpOutput() returns (err: int)
      modifies `log
      ensures log == old(log) + [Output(err)]
    {
      err := *;
      log := log + [Output(err)];
    }
  }

  // A call of tcp_write, with how many bytes it was offered, or of tcp_output, and
  // what it answered.
  datatype LwipCall = Try(len: nat, err: int) | Output(err: int)

  // The length to start with: the least of the three.
  function FirstLen(sndBuf: nat, len: nat, mss: nat): (n: nat)
    ensures n <= sndBuf && n <= len && n <= 2 * mss && (n == sndBuf || n == len || n == 2 * mss)
  {
    var n := if sndBuf < len then sndBuf else len;
    if n > 2 * mss then 2 * mss else n
  }

  // The length after a refusal for want of memory: half of it, at least one less.
  function Smaller(len: nat): (n: nat)
    requires len >= 1
    ensures if len < 3 then n + 1 == len else 2 * n == len || 2 * n + 1 == len
  {
    if len < 3 then len - 1 else len / 2
  }

  // Calls of tcp_write with ever smaller lengths, each but the last answered
  // ERR_MEM, the last one with err.
  ghost predicate Retries(ts: seq<LwipCall>, first: nat, err: int) {
    && |ts| >= 1 && (forall i | 0 <= i < |ts| :: ts[i].Try? && ts[i].len >= 1)
    && ts[0].len == first && ts[|ts| - 1].err == err
    && (forall i | 0 <= i < |ts| - 1 :: ts[i].err == ERR_MEM)
    && forall i, j | 0 <= i && j == i + 1 && j < |ts| :: ts[j].len == Smaller(ts[i].len)
  }

  ghost function Last(ts: seq<LwipCall>): nat
    requires |ts| >= 1 && ts[|ts| - 1].Try?
  {
    ts[|ts| - 1].len
  }

  lemma RetriesMore(before: seq<LwipCall>, ts: seq<LwipCall>, first: nat, len: nat, err: int)
    requires Retries(ts, first, ERR_MEM) && len >= 1 && len == Smaller(Last(ts))
    ensures Retries(ts + [Try(len, err)], first, err) && Last(ts + [Try(len, err)]) == len
    ensures (before + ts) + [Try(len, err)] == before + (ts + [Try(len, err)])
  {}

  // What may come after a call in one run of the write loop: after an accepted
  // write its output, after a refusal for want of memory a smaller write, after a
  // good output the next write; any other answer ends the loop.
  predicate Next(a: LwipCall, b: LwipCall) {
    match a
    case Try(len, e) => if e == ERR_OK then b.Output? else e == ERR_MEM && len >= 2 && b.Try? && b.len == Smaller(len)
    case Output(e) => e == ERR_OK && b.Try?
  }

  // A finished run of the write loop, and the answer of its last call; a run
  // without a call answers ERR_OK.
  ghost predicate Rounds(cs: seq<LwipCall>, err: int) {
    && (forall i, j | 0 <= i && j == i + 1 && j < |cs| :: Next(cs[i], cs[j]))
    && if |cs| == 0 then err == ERR_OK
       else
         var last := cs[|cs| - 1];
         cs[0].Try? && err == last.err && (last.Try? ==> err != ERR_OK && (err == ERR_MEM ==> last.len == 1))
  }

  // Between two logs one such run was made.
  ghost predicate Ran(before: seq<LwipCall>, now: seq<LwipCall>, err: int) {
    before <= now && Rounds(now[|before|..], err)
  }

  lemma RoundsJoin(a: seq<LwipCall>, b: seq<LwipCall>, err: int)
    requires Rounds(a, ERR_OK) && Rounds(b, err)
    ensures Rounds(a + b, err)
  {
    var cs := a + b;
    forall i, j | 0 <= i && j == i + 1 && j < |cs| ensures Next(cs[i], cs[j]) {
      assert j < |a| ==> cs[i] == a[i] && cs[j] == a[j];
      assert i >= |a| ==> cs[i] == b[i - |a|] && cs[j] == b[j - |a|];
      assert i < |a| <= j ==> cs[i] == a[|a| - 1] && cs[j] == b[0];
    }
  }

  lemma RanJoin(a: seq<LwipCall>, b: seq<LwipCall>, c: seq<LwipCall>, err: int)
    requires Ran(a, b, ERR_OK) && Ran(b, c, err)
    ensures Ran(a, c, err)
  {
    RoundsJoin(b[|a|..], c[|b|..], err);
    assert c[|a|..] == b[|a|..] + c[|b|..];
  }

  lemma RanNot(a: seq<LwipCall>)
    ensures Ran(a, a, ERR_OK)
  {}

  // One round: the retries, and the output if a write was accepted.
  lemma RoundRan(before: seq<LwipCall>, ts: seq<LwipCall>, first: nat, err: int, tail: seq<LwipCall>, answer: int)
    requires Retries(ts, first, err) && (err == ERR_MEM ==> Last(ts) == 1)
    requires if err == ERR_OK then tail == [Output(answer)] else |tail| == 0 && answer == err
    ensures Ran(before, before + ts + tail, answer)
  {
    var cs := ts + tail;
    assert (before + ts + tail)[|before|..] == cs;
    forall i, j | 0 <= i && j == i + 1 && j < |cs| ensures Next(cs[i], cs[j]) {
      assert cs[i] == ts[i];
      assert j < |ts| ==> cs[j] == ts[j];
    }
  }

  // A run ends well exactly if it made no call, or its last output did, and then
  // every write that was accepted was put out. Otherwise its answer is that of
  // the call that ended it.
  lemma RoundsEndWellIff(cs: seq<LwipCall>, err: int)
    requires Rounds(cs, err)
    ensures err == ERR_OK <==>
              |cs| == 0 || (|cs| >= 2 && cs[|cs| - 1] == Output(ERR_OK) && cs[|cs| - 2].Try? && cs[|cs| - 2].err == ERR_OK)
    ensures err != ERR_OK ==> |cs| > 0 && cs[|cs| - 1].err == err
    ensures forall i | 0 <= i < |cs| && cs[i].Try? && cs[i].err == ERR_OK :: i + 1 < |cs| && cs[i + 1].Output?
  {
    if |cs| >= 2 {
      assert Next(cs[|cs| - 2], cs[|cs| - 1]);
    }
    forall i | 0 <= i < |cs| && cs[i].Try? && cs[i].err == ERR_OK ensures i + 1 < |cs| && cs[i + 1].Output? {
      if i + 1 < |cs| {
        assert Next(cs[i], cs[i + 1]);
      }
    }
  }

  lemma EndedWell(before: seq<LwipCall>, now: seq<LwipCall>, err: int)
    requires Ran(before, now, err)
    ensures err == ERR_OK <==> now == before || now[|now| - 1] == Output(ERR_OK)
  {
    RoundsEndWellIff(now[|before|..], err);
  }

  // espconn_buf; punsent is payload + offset.
  datatype Buf = Buf(payload: seq<byte>, offset: nat, unsent: uint16, len: uint16, totLen: uint16)

  type BufNode = Node<Buf>

  function NewBuf(data: seq<byte>): Buf
    requires |data| < TWO_16
  {
    Buf(data, 0, |data|, |data|, 0)
  }

  // What one callback of the application does: try to send these payloads, with
  // memory for the queue entry or without.
  datatype AppSend = AppSend(data: seq<byte>, memory: bool)

  // The record of payload number a.
  ghost function RecOf(s: State, a: nat): Buf
    requires WellFormed(s) && a < |s.accepted| && s.headTot < TWO_16
  {
    var d := s.accepted[a];
    var off := if a < s.cur then |d| else if a == s.cur then s.part else 0;
    Buf(d, off, |d| - off, |d|, if a == s.fired then s.headTot else 0)
  }

  // The list is the queue of the state: nodes before the cursor have nothing
  // unsent, nodes after it everything, and only the head has a tot_len.
  ghost predicate Represents(s: State, recs: seq<Buf>) {
    && WellFormed(s) && s.headTot < TWO_16 && s.carry < TWO_16
    && |recs| == |s.accepted| - s.fired
    && forall i | 0 <= i < |recs| :: recs[i] == RecOf(s, s.fired + i)
  }

  // The application heard of every completed payload, with its length.
  ghost predicate Heard(s: State, callbacks: seq<uint16>)
    requires s.fired <= |s.accepted|
  {
    |callbacks| == s.fired && forall i | 0 <= i < s.fired :: callbacks[i] == |s.accepted[i]|
  }

  // What a connection holds, apart from the links between its entries.
  datatype Content = Content(
    recs: seq<Buf>, stream: seq<byte>, writeFlag: bool, posts: nat, callbacks: seq<uint16>)

  ghost predicate Agrees(s: State, copy: bool, c: Content) {
    && Represents(s, c.recs) && Inv(s, copy) && c.stream == Written(s)
    && c.writeFlag == s.writeFlag && c.posts == s.posts && Heard(s, c.callbacks)
  }

  // The contents a connection in state s can have.
  ghost function Matching(s: State, copy: bool): iset<Content> {
    iset c: Content | Agrees(s, copy, c)
  }

  // From s to t payloads were only written, none accepted or completed.
  ghost predicate OnlyWrote(s: State, t: State) {
    t == s.(cur := t.cur, part := t.part, writeFlag := t.writeFlag, posts := t.posts)
  }

  // From s to t payloads were accepted and written, none completed.
  ghost predicate Grew(s: State, t: State) {
    && s.accepted <= t.accepted
    && t.fired == s.fired && t.headTot == s.headTot && t.carry == s.carry && t.acked == s.acked
  }

  lemma GrownSettles(s: State, t: State)
    requires WellFormed(s) && WellFormed(t) && Grew(s, t) && Settled(s)
    ensures Settled(t)
  {}

  // From s to t an acknowledgement was worked off.
  ghost predicate Moved(s: State, t: State) {
    s.accepted <= t.accepted && t.acked == s.acked && s.fired <= t.fired
  }

  function Call(calls: seq<seq<AppSend>>, i: nat): seq<AppSend> {
    if i < |calls| then calls[i] else []
  }

  predicate Sendable(sends: seq<AppSend>) {
    forall i | 0 <= i < |sends| :: |sends[i].data| < TWO_16
  }

  ghost predicate Offers(sends: seq<AppSend>, d: seq<byte>) {
    exists j | 0 <= j < |sends| :: sends[j].data == d
  }

  ghost predicate OffersInCalls(calls: seq<seq<AppSend>>, d: seq<byte>) {
    exists i | 0 <= i < |calls| :: Offers(calls[i], d)
  }

  // From a to b only payloads were accepted that the application offered.
  ghost predicate AddsFrom(a: seq<seq<byte>>, b: seq<seq<byte>>, sends: seq<AppSend>) {
    a <= b && forall k | |a| <= k < |b| :: Offers(sends, b[k])
  }

  ghost predicate AddsFromCalls(a: seq<seq<byte>>, b: seq<seq<byte>>, calls: seq<seq<AppSend>>) {
    a <= b && forall k | |a| <= k < |b| :: OffersInCalls(calls, b[k])
  }

  lemma AddsInCall(a: seq<seq<byte>>, b: seq<seq<byte>>, c: seq<seq<byte>>, calls: seq<seq<AppSend>>, i: nat)
    requires AddsFromCalls(a, b, calls) && AddsFrom(b, c, Call(calls, i))
    ensures AddsFromCalls(a, c, calls)
  {
    forall k | |a| <= k < |c| ensures OffersInCalls(calls, c[k]) {
      if k >= |b| {
        assert Offers(Call(calls, i), c[k]);
        assert Offers(calls[i], c[k]);
      }
    }
  }

  lemma AddsOne(a: seq<seq<byte>>, b: seq<seq<byte>>, c: seq<seq<byte>>, sends: seq<AppSend>, j: nat)
    requires AddsFrom(a, b, sends) && j < |sends| && (c == b || c == b + [sends[j].data])
    ensures AddsFrom(a, c, sends)
  {
    assert Offers(sends, sends[j].data);
  }

  datatype Event =
    | Sending(data: seq<byte>, memory: bool)
    | Draining(sndBuf: uint16, queuelen: nat)
    | Acking(len: uint16, calls: seq<seq<AppSend>>)

  // The connection and lwIP's buffers between two events.
  datatype Moment = Moment(s: State, sndBuf: uint16, queuelen: nat)

  // Lengths are 16 bits wide.
  predicate GoodEvent(e: Event) {
    match e
    case Sending(data, _) => |data| < TWO_16
    case Draining(_, _) => true
    case Acking(_, calls) => forall i | 0 <= i < |calls| :: Sendable(calls[i])
  }

  // ----- what each step does to the content -----

  lemma InitialAgrees(s: State, c: Content, copy: bool)
    requires Initial(s) && |c.recs| == 0 && |c.stream| == 0 && c.writeFlag && c.posts == s.posts && |c.callbacks| == 0
    ensures c in Matching(s, copy) && CursorSafe(s) && Settled(s)
  {
    InitialHolds(s, copy);
  }

  lemma Accepts(s: State, c: Content, d: seq<byte>, copy: bool)
    requires c in Matching(s, copy) && CursorSafe(s) && Enabled(s, Accept(d))
    ensures var t := Apply(s, Accept(d), copy);
            c.(recs := c.recs + [NewBuf(d)], writeFlag := c.writeFlag && !copy) in Matching(t, copy)
            && CursorSafe(t)
  {
    AcceptKeeps(s, d, copy);
    var t := Apply(s, Accept(d), copy);
    forall a | 0 <= a < |s.accepted| ensures t.accepted[a] == s.accepted[a] {}
  }

  // Entry k has n unsent bytes.
  ghost predicate HasUnsent(c: Content, k: int, n: nat) {
    0 <= k < |c.recs| && n <= c.recs[k].unsent && c.recs[k].offset + c.recs[k].unsent == |c.recs[k].payload|
  }

  // n bytes of entry k handed out.
  ghost function AfterWrite(c: Content, k: nat, n: nat, copy: bool): Content
    requires HasUnsent(c, k, n)
  {
    var b := c.recs[k];
    var done := copy && n >= 1 && b.unsent == n;
    c.(recs := c.recs[k := b.(offset := b.offset + n, unsent := b.unsent - n)],
       stream := c.stream + b.payload[b.offset..b.offset + n],
       writeFlag := c.writeFlag || done, posts := c.posts + if done then 1 else 0)
  }

  ghost function Sent(s: State, n: nat, copy: bool): State
    requires s.cur < |s.accepted|
  {
    if n == 0 then s else Apply(s, Write(n), copy)
  }

  lemma CursorEntry(s: State, c: Content, copy: bool)
    requires c in Matching(s, copy) && s.cur < |s.accepted|
    ensures var k := s.cur - s.fired;
            && k < |c.recs| && c.recs[k].payload == s.accepted[s.cur] && c.recs[k].offset == s.part
            && c.recs[k].unsent == |s.accepted[s.cur]| - s.part
  {}

  lemma WrittenEntries(s: State, recs: seq<Buf>, n: nat, copy: bool)
    requires Represents(s, recs) && s.fired <= s.cur && Enabled(s, Write(n)) && WellFormed(Apply(s, Write(n), copy))
    ensures s.cur - s.fired < |recs|
    ensures var b := recs[s.cur - s.fired];
            && n <= b.unsent && b.offset + n <= |b.payload|
            && Represents(Apply(s, Write(n), copy), recs[s.cur - s.fired := b.(offset := b.offset + n, unsent := b.unsent - n)])
  {}

  lemma Writes(s: State, c: Content, n: nat, copy: bool)
    requires c in Matching(s, copy) && Enabled(s, Write(n))
    ensures var k := s.cur - s.fired;
            && k < |c.recs| && c.recs[k].payload == s.accepted[s.cur] && c.recs[k].offset == s.part
            && c.recs[k].unsent == |s.accepted[s.cur]| - s.part
            && AfterWrite(c, k, n, copy) in Matching(Apply(s, Write(n), copy), copy)
            && (CursorSafe(s) ==> CursorSafe(Apply(s, Write(n), copy)))
  {
    WriteKeeps(s, n, copy);
    WrittenEntries(s, c.recs, n, copy);
  }

  lemma Sends(s: State, c: Content, n: nat, copy: bool)
    requires c in Matching(s, copy) && s.cur < |s.accepted| && s.part < |s.accepted[s.cur]| && n <= |s.accepted[s.cur]| - s.part
    ensures var k, t := s.cur - s.fired, Sent(s, n, copy);
            HasUnsent(c, k, n) && AfterWrite(c, k, n, copy) in Matching(t, copy) && CursorSafe(t)
  {
    CursorEntry(s, c, copy);
    UnsentIsSafe(s, copy);
    if n >= 1 {
      Writes(s, c, n, copy);
    } else {
      assert AfterWrite(c, s.cur - s.fired, 0, copy) == c;
    }
  }

  lemma UnsentIsSafe(s: State, copy: bool)
    requires Inv(s, copy) && s.cur < |s.accepted| && s.part < |s.accepted[s.cur]|
    ensures CursorSafe(s)
  {
    WrittenLength(s);
  }

  lemma StreamBounded(s: State, c: Content, copy: bool)
    requires c in Matching(s, copy)
    ensures |c.stream| <= |Cat(s.accepted, |s.accepted|)| && s.cur <= |s.accepted|
  {
    WrittenIsPrefix(s);
  }

  lemma Advances(s: State, c: Content, copy: bool)
    requires c in Matching(s, copy) && Enabled(s, Advance)
    ensures var t := Apply(s, Advance, copy); c in Matching(t, copy) && (CursorSafe(s) ==> CursorSafe(t))
  {
    AdvanceKeeps(s, copy);
  }

  lemma Acknowledges(s: State, c: Content, len: nat, copy: bool)
    requires c in Matching(s, copy) && Enabled(s, Ack(len)) && s.headTot + len < TWO_16
    ensures |c.recs| > 0
    ensures var t := Credited(s, len);
            && c.(recs := c.recs[0 := c.recs[0].(totLen := s.headTot + len)]) in Matching(t, copy)
            && (CursorSafe(s) && !Endangers(s, len) ==> CursorSafe(t))
  {
    AckKeeps(s, len, copy);
    if CursorSafe(s) {
      CursorLostIff(s, len, copy);
    }
  }

  lemma HeadEntry(s: State, c: Content, copy: bool)
    requires c in Matching(s, copy) && s.fired < |s.accepted|
    ensures |c.recs| > 0 && c.recs[0].totLen == s.headTot && c.recs[0].len == |s.accepted[s.fired]|
    ensures s.carry < TWO_16 && s.headTot < TWO_16
  {}

  lemma CompleteHead(s: State, c: Content, copy: bool)
    requires c in Matching(s, copy) && CursorSafe(s) && Enabled(s, FreeHead)
    ensures s.fired < s.cur && |c.recs| > 0
    ensures c.recs[0].totLen == s.headTot && c.recs[0].len == |s.accepted[s.fired]|
  {
    FreeHeadKeeps(s, copy);
  }

  lemma AddsCarry(s: State, c: Content, copy: bool)
    requires c in Matching(s, copy) && Enabled(s, AddCarry)
    ensures |c.recs| > 0
    ensures var t := Carried(s);
            c.(recs := c.recs[0 := c.recs[0].(totLen := s.carry)]) in Matching(t, copy) && (CursorSafe(s) ==> CursorSafe(t))
  {
    AddCarryKeeps(s, copy);
  }

  lemma FreesHead(s: State, c: Content, copy: bool)
    requires c in Matching(s, copy) && CursorSafe(s) && Enabled(s, FreeHead)
    ensures s.fired < s.cur && |c.recs| > 0
    ensures var t := Freed(s);
            c.(recs := RemoveAt(c.recs, 0), callbacks := c.callbacks + [|s.accepted[s.fired]|]) in Matching(t, copy)
            && CursorSafe(t)
  {
    FreeHeadKeeps(s, copy);
    RemoveAtElements(c.recs, 0);
  }

  lemma CountStep(i: nat)
    ensures (i % 0x100 + 1) % 0x100 == (i + 1) % 0x100
  {}

  class Connection {
    const pcb: TcpPcb
    const copyOpt: bool             // the ESPCONN_COPY bit
    var pbuf: Node?<Buf>
    var ptail: Node?<Buf>
    const pbufNum: byte             // payloads allowed without the copy option
    var writeFlag: bool
    var sentLength: uint16          // packet_info.sent_length
    var posts: nat                  // SIG_ESPCONN_WRITE posted
    var callbacks: seq<uint16>      // sent_length at each call of the registered sent callback

    ghost var nodes: seq<BufNode>
    ghost var recs: seq<Buf>
    ghost var repr: set<BufNode>
    ghost var s: State

    ghost predicate Shape()
      reads `pbuf, `nodes, `recs, `repr, nodes
    {
      && Linked(pbuf, nodes) && Carries(nodes, recs)
      && forall i | 0 <= i < |nodes| :: nodes[i] in repr
    }

    ghost function Held(): Content
      reads `recs, `writeFlag, `posts, `callbacks, pcb
    {
      Content(recs, pcb.stream, writeFlag, posts, callbacks)
    }

    ghost predicate Core()
      reads `pbuf, `ptail, `writeFlag, `posts, `callbacks, `nodes, `recs, `repr, `s, nodes, pcb
    {
      && pcb.mss >= 1
      && Shape() && Held() in Matching(s, copyOpt)
      && ptail == NodeAt(nodes, s.cur - s.fired)
    }

    // What the invariant says of the queue itself: the bytes written are a
    // prefix of the payloads in acceptance order; one callback per completed
    // payload; entries before ptail are wholly sent, entries after it wholly
    // unsent; only the head has acknowledged bytes.
    lemma StreamAndShape()
      requires Core()
      ensures pcb.stream <= Cat(s.accepted, |s.accepted|)
      ensures |callbacks| == s.fired && forall i | 0 <= i < s.fired :: callbacks[i] == |s.accepted[i]|
      ensures |nodes| == |s.accepted| - s.fired
      ensures forall i | 0 <= i < |nodes| ::
                && nodes[i].data.payload == s.accepted[s.fired + i] && nodes[i].data.len == |s.accepted[s.fired + i]|
                && (i < s.cur - s.fired ==> nodes[i].data.unsent == 0)
                && (i > s.cur - s.fired ==> nodes[i].data.unsent == nodes[i].data.len)
                && (i > 0 ==> nodes[i].data.totLen == 0)
      ensures s.carry == 0 && |nodes| > 0 ==> s.acked == Total(s.accepted, s.fired) + nodes[0].data.totLen
      ensures ptail != null <==> s.cur < |s.accepted|
      ensures !copyOpt ==> writeFlag && posts == 0
      ensures copyOpt ==> posts == Completed(s.accepted, |pcb.stream|)
      ensures copyOpt ==> (writeFlag <==> pcb.stream == Cat(s.accepted, |s.accepted|))
    {
      WrittenIsPrefix(s);
      if copyOpt {
        PostsMatchWritten(s);
      }
    }

    constructor (pcb: TcpPcb, copyOpt: bool, pbufNum: byte, ghost st: State)
      requires pcb.mss >= 1 && |pcb.stream| == 0 && Initial(st)
      ensures Fresh() && s == st
      ensures this.pcb == pcb && this.copyOpt == copyOpt && this.pbufNum == pbufNum && repr == {}
    {
      this.pcb, this.copyOpt, this.pbufNum := pcb, copyOpt, pbufNum;
      pbuf, ptail, writeFlag, sentLength, posts, callbacks := null, null, true, 0, 0, [];
      nodes, recs, repr, s := [], [], {}, st;
    }

    // A connection just opened.
    ghost predicate Fresh()
      reads this, nodes, pcb
    {
      && pcb.mss >= 1 && Shape() && Initial(s) && ptail == null && |recs| == 0
      && |pcb.stream| == 0 && writeFlag && posts == s.posts && |callbacks| == 0
    }

    lemma FreshIsCore()
      requires Fresh()
      ensures Core() && CursorSafe(s) && Settled(s)
    {
      InitialAgrees(s, Held(), copyOpt);
    }

    // Overwrite a queue entry.
    method SetRecord(n: BufNode, ghost k: nat, b: Buf)
      requires Shape() && k < |nodes| && nodes[k] == n
      modifies `recs, n`data
      ensures Shape() && recs == old(recs)[k := b]
    {
      n.data := b;
      recs := recs[k := b];
    }

    // ----- espconn_sent's queueing -----

    // espconn_pbuf_create, and ptail if it was null.
    method PushNode(node: BufNode)
      requires Shape() && node !in nodes
      modifies `pbuf, `ptail, `nodes, `recs, `repr, repr`pnext, node`pnext
      ensures Shape() && nodes == old(nodes) + [node] && recs == old(recs) + [node.data]
      ensures ptail == if old(ptail) == null then node else old(ptail)
      ensures repr == old(repr) + {node}
    {
      pbuf := Append(pbuf, node, nodes);
      if ptail == null {
        ptail := node;
      }
      nodes := nodes + [node];
      recs := recs + [node.data];
      repr := repr + {node};
    }

    method QueueBuf(data: seq<byte>)
      requires Shape() && |data| < TWO_16
      modifies `pbuf, `ptail, `writeFlag, `nodes, `recs, `repr, repr`pnext
      ensures Shape() && recs == old(recs) + [NewBuf(data)] && |nodes| == |old(nodes)| + 1
      ensures forall i :: 0 <= i < |old(nodes)| ==> nodes[i] == old(nodes)[i]
      ensures ptail == if old(ptail) == null then nodes[|old(nodes)|] else old(ptail)
      ensures writeFlag == (old(writeFlag) && !copyOpt)
      ensures fresh(repr - old(repr))
    {
      var node := new Node(NewBuf(data));
      PushNode(node);
      if copyOpt {
        writeFlag := false;
      }
    }

    method Enqueue(data: seq<byte>)
      requires Core() && CursorSafe(s) && Enabled(s, Accept(data))
      modifies `pbuf, `ptail, `writeFlag, `nodes, `recs, `repr, `s, repr`pnext
      ensures Core() && CursorSafe(s) && s == Apply(old(s), Accept(data), copyOpt)
      ensures fresh(repr - old(repr))
    {
      ghost var c := Held();
      QueueBuf(data);
      s := Apply(s, Accept(data), copyOpt);
      EnqueuedCore(c, old(s), data);
    }

    lemma EnqueuedCore(c: Content, s0: State, data: seq<byte>)
      requires pcb.mss >= 1 && Shape() && c in Matching(s0, copyOpt) && CursorSafe(s0) && Enabled(s0, Accept(data))
      requires s == Apply(s0, Accept(data), copyOpt)
      requires Held() == c.(recs := c.recs + [NewBuf(data)], writeFlag := c.writeFlag && !copyOpt)
      requires ptail == NodeAt(nodes, s0.cur - s0.fired)
      ensures Core() && CursorSafe(s)
    {
      Accepts(s0, c, data, copyOpt);
    }

    // ----- espconn_tcp_sent -----

    // One call of tcp_write, and the length to go on with if memory is short.
    method TryWrite(data: seq<byte>, len: nat) returns (err: int, next: nat)
      requires 1 <= len <= |data|
      modifies pcb
      ensures pcb.log == old(pcb.log) + [Try(len, err)]
      ensures err == ERR_OK ==> pcb.stream == old(pcb.stream) + data[..len] && pcb.sndBuf == old(pcb.sndBuf) - len
      ensures err != ERR_OK ==> pcb.stream == old(pcb.stream) && pcb.sndBuf == old(pcb.sndBuf)
      ensures next == if err == ERR_MEM then Smaller(len) else len
    {
      err := pcb.TcpWrite(data[..len]);
      next := len;
      if err == ERR_MEM {
        next := if len < 3 then len - 1 else len / 2;
      }
    }

    // The halving retry: hand out a prefix of the payload's unsent part. It gives
    // up for want of memory only after lwIP refused a single byte.
    method WriteSome(data: seq<byte>) returns (err: int, n: nat)
      requires 1 <= |data| < TWO_16 && pcb.sndBuf > 0 && pcb.mss >= 1
      modifies pcb
      ensures err == ERR_OK ==>
                && 1 <= n <= |data| && n <= 2 * pcb.mss && pcb.stream == old(pcb.stream) + data[..n]
                && pcb.sndBuf == old(pcb.sndBuf) - n
      ensures err != ERR_OK ==> pcb.stream == old(pcb.stream) && pcb.sndBuf == old(pcb.sndBuf)
      ensures exists ts ::
                && pcb.log == old(pcb.log) + ts && Retries(ts, FirstLen(old(pcb.sndBuf), |data|, pcb.mss), err)
                && (if err == ERR_MEM then Last(ts) == 1 else Last(ts) == n)
    {
      n := if pcb.sndBuf < |data| then pcb.sndBuf else |data|;
      if n > 2 * pcb.mss {
        n := 2 * pcb.mss;
      }
      ghost var first := n;
      err, n := TryWrite(data, n);
      ghost var ts := [Try(first, err)];
      while err == ERR_MEM && n > 0
        invariant n <= |data| && n <= 2 * pcb.mss
        invariant err == ERR_OK ==> n >= 1 && pcb.stream == old(pcb.stream) + data[..n] && pcb.sndBuf == old(pcb.sndBuf) - n
        invariant err != ERR_OK ==> pcb.stream == old(pcb.stream) && pcb.sndBuf == old(pcb.sndBuf)
        invariant pcb.log == old(pcb.log) + ts && Retries(ts, first, err)
        invariant n == if err == ERR_MEM then Smaller(Last(ts)) else Last(ts)
        decreases if err == ERR_MEM then 1 else 0, n
      {
        ghost var len := n;
        err, n := TryWrite(data, n);
        RetriesMore(old(pcb.log), ts, first, len, err);
        ts := ts + [Try(len, err)];
      }
    }

    // The bookkeeping after tcp_write took len bytes of entry k.
    method MarkSent(tail: BufNode, ghost k: nat, len: nat)
      requires Shape() && k < |nodes| && nodes[k] == tail && HasUnsent(Held(), k, len) && len >= 1
      modifies `recs, `writeFlag, `posts, tail`data
      ensures Shape()
      ensures Held() == AfterWrite(old(Held()), k, len, copyOpt).(stream := pcb.stream)
    {
      var b := tail.data;
      SetRecord(tail, k, b.(offset := b.offset + len, unsent := b.unsent - len));
      if copyOpt {
        if tail.data.unsent == 0 {
          writeFlag := true;
          posts := posts + 1;
        }
      }
    }

    // espconn_tcp_sent on the entry at ptail.
    method WriteTail(tail: BufNode, ghost k: nat) returns (err: int, ghost n: nat)
      requires Shape() && k < |nodes| && nodes[k] == tail && pcb.sndBuf > 0 && pcb.mss >= 1
      requires HasUnsent(Held(), k, 1)
      modifies `recs, `writeFlag, `posts, pcb, tail`data
      ensures Shape() && HasUnsent(old(Held()), k, n)
      ensures n == 0 ==> err != ERR_OK && pcb.sndBuf == old(pcb.sndBuf)
      ensures Held() == AfterWrite(old(Held()), k, n, copyOpt)
      ensures Ran(old(pcb.log), pcb.log, err) && |pcb.log| > |old(pcb.log)|
    {
      var data := tail.data.payload[tail.data.offset..];
      ghost var first := FirstLen(pcb.sndBuf, |data|, pcb.mss);
      var len;
      err, len := WriteSome(data);
      ghost var tried := err;
      ghost var ts :| pcb.log == old(pcb.log) + ts && Retries(ts, first, tried) && (tried == ERR_MEM ==> Last(ts) == 1);
      n := 0;
      if err == ERR_OK {
        n := len;
        MarkSent(tail, k, len);
        err := pcb.TcpOutput();
        RoundRan(old(pcb.log), ts, first, tried, [Output(err)], err);
      } else {
        RoundRan(old(pcb.log), ts, first, tried, [], err);
        assert old(pcb.log) + ts + [] == pcb.log;
      }
    }

    lemma AtCursor(tail: BufNode)
      requires Core() && ptail == tail && tail.data.unsent > 0
      ensures s.fired <= s.cur < |s.accepted| && s.cur - s.fired < |nodes| && nodes[s.cur - s.fired] == tail
      ensures HasUnsent(Held(), s.cur - s.fired, 1)
      ensures recs[s.cur - s.fired].unsent == |s.accepted[s.cur]| - s.part
    {
      CursorEntry(s, Held(), copyOpt);
    }

    lemma SentCore(c: Content, s0: State, n: nat)
      requires pcb.mss >= 1 && Shape() && c in Matching(s0, copyOpt)
      requires s0.cur < |s0.accepted| && s0.part < |s0.accepted[s0.cur]| && n <= |s0.accepted[s0.cur]| - s0.part
      requires s0.fired <= s0.cur && HasUnsent(c, s0.cur - s0.fired, n)
      requires s == Sent(s0, n, copyOpt) && Held() == AfterWrite(c, s0.cur - s0.fired, n, copyOpt)
      requires ptail == NodeAt(nodes, s0.cur - s0.fired)
      ensures Core() && CursorSafe(s)
    {
      Sends(s0, c, n, copyOpt);
    }

    // The same as a step of the stream: bytes are written, or there is an error.
    // Either way the payload at the cursor was not wholly acknowledged.
    method TcpSent(tail: BufNode) returns (err: int)
      requires Core() && ptail == tail && tail.data.unsent > 0 && pcb.sndBuf > 0
      modifies `recs, `writeFlag, `posts, `s, pcb, tail`data
      ensures Core() && CursorSafe(s) && OnlyWrote(old(s), s) && old(pcb.stream) <= pcb.stream
      ensures err == ERR_OK ==> |pcb.stream| > |old(pcb.stream)|
      ensures Ran(old(pcb.log), pcb.log, err) && |pcb.log| > |old(pcb.log)|
    {
      AtCursor(tail);
      ghost var c, k, n := Held(), s.cur - s.fired, 0;
      err, n := WriteTail(tail, k);
      s := Sent(s, n, copyOpt);
      SentCore(c, old(s), n);
    }

    // ----- espconn_tcp_write -----

    lemma AdvancedCore(c: Content, s0: State)
      requires pcb.mss >= 1 && Shape() && c in Matching(s0, copyOpt) && Held() == c
      requires Enabled(s0, Advance) && s == Apply(s0, Advance, copyOpt)
      requires ptail == NodeAt(nodes, s0.cur - s0.fired + 1)
      ensures Core() && (CursorSafe(s0) ==> CursorSafe(s))
    {
      Advances(s0, c, copyOpt);
    }

    // ptail is past its payload: move it on.
    method AdvanceTail(tail: BufNode)
      requires Core() && ptail == tail && tail.data.unsent == 0
      modifies `ptail, `s
      ensures Core() && s == Apply(old(s), Advance, copyOpt) && (CursorSafe(old(s)) ==> CursorSafe(s))
    {
      ghost var c, k := Held(), s.cur - s.fired;
      CursorEntry(s, c, copyOpt);
      assert tail == nodes[k] && tail.pnext == NodeAt(nodes, k + 1);
      ptail := tail.pnext;
      s := Apply(s, Advance, copyOpt);
      AdvancedCore(c, old(s));
    }

    // One round of espconn_tcp_write's loop.
    method WriteRound(tail: BufNode) returns (err: int, ghost wrote: bool)
      requires Core() && ptail == tail && pcb.sndBuf > 0
      modifies `ptail, `recs, `writeFlag, `posts, `s, pcb, tail`data
      ensures Core() && OnlyWrote(old(s), s) && old(pcb.stream) <= pcb.stream
      ensures wrote || CursorSafe(old(s)) ==> CursorSafe(s)
      ensures !wrote ==> pcb.sndBuf == old(pcb.sndBuf) && err == ERR_OK
      ensures err == ERR_OK ==>
                |pcb.stream| > |old(pcb.stream)| || (pcb.stream == old(pcb.stream) && s.cur > old(s.cur))
      ensures Ran(old(pcb.log), pcb.log, err)
      ensures if wrote then |pcb.log| > |old(pcb.log)| else pcb.log == old(pcb.log) && pcb.stream == old(pcb.stream)
    {
      if tail.data.unsent == 0 {
        RanNot(pcb.log);
        AdvanceTail(tail);
        err, wrote := ERR_OK, false;
      } else {
        err := TcpSent(tail);
        wrote := true;
      }
    }

    lemma NothingAtTail()
      requires Core() && ptail == null
      ensures s.cur == |s.accepted| && |pcb.stream| == |Cat(s.accepted, |s.accepted|)|
    {}

    method WriteRounds() returns (err: int)
      requires Core()
      modifies `ptail, `recs, `writeFlag, `posts, `s, pcb, repr`data
      ensures Core() && OnlyWrote(old(s), s) && old(pcb.stream) <= pcb.stream
      ensures err == ERR_OK ==> pcb.sndBuf == 0 || s.cur == |s.accepted|
      ensures old(pcb.sndBuf > 0 || CursorSafe(s)) ==> CursorSafe(s)
      ensures Ran(old(pcb.log), pcb.log, err)
      ensures old(pcb.sndBuf) > 0 && |pcb.log| == |old(pcb.log)| ==>
                |old(pcb.stream)| == |Cat(s.accepted, |s.accepted|)|
    {
      err := ERR_OK;
      RanNot(pcb.log);
      ghost var wrote := false;
      while pcb.sndBuf != 0 && ptail != null && err == ERR_OK
        invariant Core() && OnlyWrote(old(s), s) && old(pcb.stream) <= pcb.stream
        invariant wrote || old(CursorSafe(s)) ==> CursorSafe(s)
        invariant !wrote ==> pcb.sndBuf == old(pcb.sndBuf) && err == ERR_OK
        invariant Ran(old(pcb.log), pcb.log, err)
        invariant if wrote then |pcb.log| > |old(pcb.log)| else pcb.stream == old(pcb.stream)
        decreases err == ERR_OK, |Cat(s.accepted, |s.accepted|)| - |pcb.stream|, |s.accepted| - s.cur
      {
        ghost var w, log := false, pcb.log;
        err, w := WriteRound(ptail);
        RanJoin(old(pcb.log), log, pcb.log, err);
        StreamBounded(s, Held(), copyOpt);
        wrote := wrote || w;
      }
      if ptail == null {
        NothingAtTail();
      }
    }

    method TcpWrite() returns (err: int)
      requires Core()
      modifies `ptail, `recs, `writeFlag, `posts, `s, pcb, repr`data
      ensures Core() && OnlyWrote(old(s), s) && old(pcb.stream) <= pcb.stream
      ensures err == ERR_OK ==> pcb.sndBuf == 0 || s.cur == |s.accepted|
      ensures if old(pcb.nagleDisabled && pcb.sndQueuelen >= pcb.sndQueueMax)
              then err == -1 && s == old(s) && pcb.log == old(pcb.log)
              else
                && Ran(old(pcb.log), pcb.log, err)
                && (err == 0 <==> pcb.log == old(pcb.log) || pcb.log[|pcb.log| - 1] == Output(0))
                && (old(pcb.sndBuf) > 0 && |pcb.log| == |old(pcb.log)| ==>
                    |old(pcb.stream)| == |Cat(s.accepted, |s.accepted|)|)
      ensures old((!pcb.Blocked() && pcb.sndBuf > 0) || CursorSafe(s)) ==> CursorSafe(s)
    {
      if pcb.Blocked() {
        return ESPCONN_MEM;
      }
      err := WriteRounds();
      EndedWell(old(pcb.log), pcb.log, err);
    }

    // ----- espconn_sent -----

    // espconn_tcp_get_buf_count: an 8-bit count of the queue.
    method BufCount() returns (n: byte)
      requires Shape()
      ensures n == |nodes| % 0x100
    {
      n := 0;
      var p := pbuf;
      ghost var i := 0;
      while p != null
        invariant i <= |nodes| && p == NodeAt(nodes, i) && n == i % 0x100
        decreases |nodes| - i
      {
        CountStep(i);
        p := p.pnext;
        n := (n + 1) % 0x100;
        i := i + 1;
      }
    }

    // The limit on outstanding payloads depends on the copy option.
    ghost predicate Room()
      reads this, pcb
    {
      if copyOpt then pcb.sndQueuelen < pcb.sndQueueMax else |nodes| % 0x100 < pbufNum
    }

    // What espconn_sent answers before it queues anything.
    ghost function Refusal(data: seq<byte>, memory: bool): int
      reads this, pcb
    {
      if |data| == 0 || !writeFlag then ESPCONN_ARG
      else if !Room() then ESPCONN_MAXNUM
      else if !memory then ESPCONN_MEM
      else ESPCONN_OK
    }

    method Admit(data: seq<byte>, memory: bool) returns (err: int)
      requires Shape()
      ensures err == Refusal(data, memory)
    {
      if |data| == 0 || !writeFlag {
        return ESPCONN_ARG;
      }
      if !copyOpt {
        var count := BufCount();
        if count >= pbufNum {
          return ESPCONN_MAXNUM;
        }
      } else if pcb.sndQueuelen >= pcb.sndQueueMax {
        return ESPCONN_MAXNUM;
      }
      err := if memory then ESPCONN_OK else ESPCONN_MEM;
    }

    // Queue the payload and write what can be written.
    method Submit(data: seq<byte>) returns (err: int)
      requires Core() && CursorSafe(s) && Enabled(s, Accept(data))
      modifies `pbuf, `ptail, `recs, `writeFlag, `posts, `nodes, `repr, `s, pcb, repr
      ensures Core() && CursorSafe(s) && fresh(repr - old(repr))
      ensures Grew(old(s), s) && s.accepted == old(s.accepted) + [data] && old(pcb.stream) <= pcb.stream && |old(pcb.log)| <= |pcb.log|
      ensures err == ESPCONN_OK ==> pcb.sndBuf == 0 || s.cur == |s.accepted|
      ensures if old(pcb.nagleDisabled && pcb.sndQueuelen >= pcb.sndQueueMax)
              then err == -1 && pcb.log == old(pcb.log)
              else
                && Ran(old(pcb.log), pcb.log, err)
                && (err == 0 <==> pcb.log == old(pcb.log) || pcb.log[|pcb.log| - 1] == Output(0))
    {
      Enqueue(data);
      err := TcpWrite();
    }

    // A payload is queued exactly when it is not refused. Without an error it is
    // then written out, or the send buffer is full; with an error of the write it
    // stays queued all the same, so ESPCONN_MEM is answered in both cases.
    method EspconnSent(data: seq<byte>, memory: bool) returns (err: int)
      requires Core() && CursorSafe(s) && |data| < TWO_16
      modifies `pbuf, `ptail, `recs, `writeFlag, `posts, `nodes, `repr, `s, pcb, repr
      ensures Core() && CursorSafe(s) && fresh(repr - old(repr))
      ensures old(Refusal(data, memory)) == ESPCONN_OK ==> Grew(old(s), s) && s.accepted == old(s.accepted) + [data]
      ensures old(pcb.stream) <= pcb.stream && |old(pcb.log)| <= |pcb.log|
      ensures err == ESPCONN_OK ==> pcb.sndBuf == 0 || s.cur == |s.accepted|
      ensures var full := if copyOpt then old(pcb.sndQueuelen) >= pcb.sndQueueMax else |old(nodes)| % 0x100 >= pbufNum;
              var blocked := pcb.nagleDisabled && old(pcb.sndQueuelen) >= pcb.sndQueueMax;
              if |data| == 0 || !old(writeFlag) || full || !memory then
                && s == old(s) && pcb.log == old(pcb.log)
                && err == if |data| == 0 || !old(writeFlag) then -12 else if full then -7 else -1
              else
                && Grew(old(s), s) && s.accepted == old(s.accepted) + [data]
                && (if blocked then err == -1 && pcb.log == old(pcb.log) else Ran(old(pcb.log), pcb.log, err))
                && (err == 0 <==> !blocked && (pcb.log == old(pcb.log) || pcb.log[|pcb.log| - 1] == Output(0)))
      ensures old(Refusal(data, memory)) != ESPCONN_OK ==>
                s == old(s) && err == old(Refusal(data, memory))
                && pcb.sndBuf == old(pcb.sndBuf) && pcb.sndQueuelen == old(pcb.sndQueuelen)
      ensures old(Settled(s)) ==> Settled(s)
    {
      err := Admit(data, memory);
      if err == ESPCONN_OK {
        err := Submit(data);
        if old(Settled(s)) {
          GrownSettles(old(s), s);
        }
      }
    }

    // The application calls espconn_sent a few times.
    method SendAll(sends: seq<AppSend>)
      requires Core() && CursorSafe(s) && Sendable(sends)
      modifies `pbuf, `ptail, `recs, `writeFlag, `posts, `nodes, `repr, `s, pcb, repr
      ensures Core() && CursorSafe(s) && fresh(repr - old(repr))
      ensures Grew(old(s), s) && old(pcb.stream) <= pcb.stream && |old(pcb.log)| <= |pcb.log| && AddsFrom(old(s.accepted), s.accepted, sends)
    {
      var i := 0;
      while i < |sends|
        invariant i <= |sends| && AddsFrom(old(s.accepted), s.accepted, sends)
        invariant Core() && CursorSafe(s) && fresh(repr - old(repr))
        invariant Grew(old(s), s) && old(pcb.stream) <= pcb.stream && |old(pcb.log)| <= |pcb.log|
      {
        ghost var b := s.accepted;
        var err := EspconnSent(sends[i].data, sends[i].memory);
        AddsOne(old(s.accepted), b, s.accepted, sends, i);
        i := i + 1;
      }
    }

    // ----- espconn_client_sent, espconn_server_sent -----

    lemma CreditedCore(c: Content, s0: State, len: nat)
      requires pcb.mss >= 1 && Shape() && c in Matching(s0, copyOpt) && |c.recs| > 0
      requires Enabled(s0, Ack(len)) && s0.headTot + len < TWO_16
      requires s == Credited(s0, len)
      requires Held() == c.(recs := c.recs[0 := c.recs[0].(totLen := s0.headTot + len)])
      requires ptail == NodeAt(nodes, s0.cur - s0.fired)
      ensures Core() && (CursorSafe(s0) && !Endangers(s0, len) ==> CursorSafe(s))
    {
      Acknowledges(s0, c, len, copyOpt);
    }

    // Acknowledged bytes belong to a payload still queued.
    lemma HasHead(len: nat)
      requires Core() && Enabled(s, Ack(len))
      ensures |nodes| > 0 && pbuf == nodes[0] && nodes[0].data.totLen == s.headTot
    {
      AckKeeps(s, len, copyOpt);
      HeadEntry(s, Held(), copyOpt);
    }

    method AddToHead(len: uint16, ghost tot: nat)
      requires Shape() && pbuf != null && |recs| > 0 && pbuf.data.totLen == tot && tot + len < TWO_16
      modifies `recs, `sentLength, repr`data
      ensures Shape() && sentLength == len
      ensures Held() == old(Held()).(recs := old(recs)[0 := old(recs[0]).(totLen := tot + len)])
    {
      SetRecord(pbuf, 0, pbuf.data.(totLen := pbuf.data.totLen + len));
      sentLength := len;
    }

    // The acknowledged bytes are credited to the head of the queue.
    method Credit(len: uint16)
      requires Core() && Enabled(s, Ack(len)) && s.headTot + len < TWO_16
      modifies `recs, `sentLength, `s, repr`data
      ensures Core() && s == Credited(old(s), len)
      ensures sentLength == len
      ensures old(CursorSafe(s) && !Endangers(s, len)) ==> CursorSafe(s)
    {
      HasHead(len);
      ghost var c := Held();
      AddToHead(len, s.headTot);
      s := Credited(s, len);
      CreditedCore(c, old(s), len);
    }

    lemma CarriedCore(c: Content, s0: State)
      requires pcb.mss >= 1 && Shape() && c in Matching(s0, copyOpt) && |c.recs| > 0
      requires Enabled(s0, AddCarry) && s == Carried(s0)
      requires Held() == c.(recs := c.recs[0 := c.recs[0].(totLen := s0.carry)])
      requires ptail == NodeAt(nodes, s0.cur - s0.fired)
      ensures Core() && (CursorSafe(s0) ==> CursorSafe(s))
    {
      AddsCarry(s0, c, copyOpt);
    }

    // The head of a round gets what the previous head left over.
    method CarryOver(head: BufNode, len: uint16) returns (complete: bool)
      requires Core() && CursorSafe(s) && pbuf == head && s.carry == len && (len == 0 || s.headTot == 0)
      modifies `recs, `s, head`data
      ensures Core() && CursorSafe(s) && s == old(s).(headTot := old(s.carry + s.headTot), carry := 0)
      ensures if complete then Enabled(s, FreeHead) else Settled(s)
    {
      ghost var c := Held();
      HeadEntry(s, c, copyOpt);
      assert head == nodes[0];
      SetRecord(head, 0, head.data.(totLen := head.data.totLen + len));
      if s.headTot == 0 {
        s := Carried(s);
        CarriedCore(c, old(s));
      } else {
        assert recs == c.recs;
        assert Held() == c;
      }
      complete := head.data.totLen >= head.data.len;
    }

    lemma FreedCore(c: Content, s0: State)
      requires pcb.mss >= 1 && Shape() && c in Matching(s0, copyOpt) && |c.recs| > 0 && CursorSafe(s0)
      requires Enabled(s0, FreeHead) && s == Freed(s0)
      requires Held() == c.(recs := RemoveAt(c.recs, 0), callbacks := c.callbacks + [|s0.accepted[s0.fired]|])
      requires s0.cur > s0.fired ==> ptail == NodeAt(nodes, s0.cur - s0.fired - 1)
      ensures Core() && CursorSafe(s)
    {
      FreesHead(s0, c, copyOpt);
    }

    // Unlink the head.
    method PopNode(head: BufNode)
      requires Shape() && pbuf == head
      modifies `pbuf, `nodes, `recs, repr`pnext
      ensures Shape() && |old(nodes)| >= 1 && nodes == RemoveAt(old(nodes), 0) && recs == RemoveAt(old(recs), 0)
    {
      assert head == nodes[0];
      CarriesRemove(nodes, recs, 0);
      pbuf := Delete(pbuf, head, nodes);
      nodes, recs := RemoveAt(nodes, 0), RemoveAt(recs, 0);
    }

    method DropHead(head: BufNode, ghost k: nat) returns (rest: uint16)
      requires Shape() && pbuf == head && |recs| > 0 && recs[0].totLen >= recs[0].len
      modifies `pbuf, `nodes, `recs, `callbacks, `sentLength, repr`pnext
      ensures Shape() && rest == old(recs[0].totLen) - sentLength && sentLength == old(recs[0].len)
      ensures recs == RemoveAt(old(recs), 0) && callbacks == old(callbacks) + [sentLength]
      ensures NodeAt(nodes, k) == NodeAt(old(nodes), k + 1)
    {
      assert head == nodes[0];
      rest, sentLength := head.data.totLen - head.data.len, head.data.len;
      PopNode(head);
      RemoveAtElements(old(nodes), 0);
      callbacks := callbacks + [sentLength];
    }

    // The head is complete: free it and tell the application.
    method Complete(head: BufNode) returns (rest: uint16)
      requires Core() && CursorSafe(s) && pbuf == head && Enabled(s, FreeHead)
      modifies `pbuf, `nodes, `recs, `callbacks, `sentLength, `s, repr`pnext
      ensures Core() && CursorSafe(s) && s == Freed(old(s))
      ensures rest == s.carry && sentLength == |s.accepted[old(s.fired)]|
    {
      ghost var c, k := Held(), s.cur - s.fired - 1;
      CompleteHead(s, c, copyOpt);
      rest := DropHead(head, k);
      s := Freed(s);
      FreedCore(c, old(s));
    }

    // The callback runs, and sends more.
    method CompleteAndCall(head: BufNode, sends: seq<AppSend>) returns (rest: uint16)
      requires Core() && CursorSafe(s) && pbuf == head && Enabled(s, FreeHead) && Sendable(sends)
      modifies this, pcb, repr
      ensures Core() && CursorSafe(s) && fresh(repr - old(repr))
      ensures Moved(old(s), s) && old(pcb.stream) <= pcb.stream && |old(pcb.log)| <= |pcb.log| && AddsFrom(old(s.accepted), s.accepted, sends)
      ensures s.carry == rest && s.headTot == 0 && rest < old(s.headTot)
    {
      rest := Complete(head);
      CallBack(sends, rest);
    }

    // The sent callback, and what is left of the acknowledgement after it.
    method CallBack(sends: seq<AppSend>, rest: uint16)
      requires Core() && CursorSafe(s) && Sendable(sends)
      modifies this, pcb, repr
      ensures Core() && CursorSafe(s) && fresh(repr - old(repr)) && sentLength == rest
      ensures Grew(old(s), s) && old(pcb.stream) <= pcb.stream && |old(pcb.log)| <= |pcb.log|
      ensures AddsFrom(old(s.accepted), s.accepted, sends)
    {
      SendAll(sends);
      sentLength := rest;
    }

    // One round of espconn_tcp_finish's loop.
    method FinishRound(head: BufNode, len: uint16, sends: seq<AppSend>) returns (done: bool, rest: uint16)
      requires Core() && CursorSafe(s) && pbuf == head && s.carry == len && (len == 0 || s.headTot == 0)
      requires Sendable(sends)
      modifies this, pcb, repr
      ensures Core() && CursorSafe(s) && fresh(repr - old(repr))
      ensures Moved(old(s), s) && old(pcb.stream) <= pcb.stream && |old(pcb.log)| <= |pcb.log| && AddsFrom(old(s.accepted), s.accepted, sends)
      ensures done ==> Settled(s)
      ensures !done ==> s.carry == rest && (rest == 0 || s.headTot == 0) && s.carry + s.headTot < old(s.carry + s.headTot)
    {
      var complete := CarryOver(head, len);
      done, rest := !complete, len;
      if complete {
        rest := CompleteAndCall(head, sends);
      }
    }

    lemma EmptyQueue()
      requires Core() && pbuf == null
      ensures Settled(s)
    {
      EmptyQueueHasNoCarry(s, copyOpt);
    }

    // calls[i] is what the application sends in the i-th callback.
    method FinishRounds(calls: seq<seq<AppSend>>)
      requires Core() && CursorSafe(s) && s.carry == 0
      requires forall i | 0 <= i < |calls| :: Sendable(calls[i])
      modifies this, pcb, repr
      ensures Core() && CursorSafe(s) && Settled(s) && fresh(repr - old(repr))
      ensures Moved(old(s), s) && old(pcb.stream) <= pcb.stream && |old(pcb.log)| <= |pcb.log| && AddsFromCalls(old(s.accepted), s.accepted, calls)
    {
      var len, done, i := 0, false, 0;
      while pbuf != null && !done
        invariant Core() && CursorSafe(s) && fresh(repr - old(repr))
        invariant Moved(old(s), s) && old(pcb.stream) <= pcb.stream && |old(pcb.log)| <= |pcb.log| && AddsFromCalls(old(s.accepted), s.accepted, calls)
        invariant if done then Settled(s) else s.carry == len && (len == 0 || s.headTot == 0)
        decreases !done, s.carry + s.headTot
      {
        ghost var b := s.accepted;
        done, len := FinishRound(pbuf, len, Call(calls, i));
        AddsInCall(old(s.accepted), b, s.accepted, calls, i);
        i := i + 1;
      }
      if !done {
        EmptyQueue();
      }
    }

    lemma Exact()
      requires Core() && Settled(s)
      ensures s.fired == Completed(s.accepted, s.acked)
    {
      FiredIsCompleted(s, copyOpt);
    }

    // espconn_tcp_finish: write on, then complete whatever is acknowledged.
    method Finish(calls: seq<seq<AppSend>>)
      requires Core() && s.carry == 0 && (CursorSafe(s) || (!pcb.Blocked() && pcb.sndBuf > 0))
      requires forall i | 0 <= i < |calls| :: Sendable(calls[i])
      modifies this, pcb, repr
      ensures Core() && CursorSafe(s) && Settled(s) && fresh(repr - old(repr))
      ensures s.acked == old(s.acked) && s.fired == Completed(s.accepted, s.acked)
      ensures AddsFromCalls(old(s.accepted), s.accepted, calls) && old(pcb.stream) <= pcb.stream
      ensures !old(pcb.nagleDisabled && pcb.sndQueuelen >= pcb.sndQueueMax) && old(pcb.sndBuf) > 0 ==>
                |pcb.log| > |old(pcb.log)| || |old(pcb.stream)| == |Cat(old(s.accepted), |old(s.accepted)|)|
    {
      var err := TcpWrite();
      FinishRounds(calls);
      Exact();
    }

    // The acknowledgement of len bytes, from end to end. The write comes first,
    // and offers lwIP bytes if any are unsent and there is room;
    // it takes the cursor off the payloads the loop will free, unless it is
    // blocked while everything written is acknowledged.
    method Acknowledged(len: uint16, calls: seq<seq<AppSend>>)
      requires Core() && CursorSafe(s) && Enabled(s, Ack(len)) && s.headTot + len < TWO_16
      requires (!pcb.Blocked() && pcb.sndBuf > 0) || !Endangers(s, len)
      requires forall i | 0 <= i < |calls| :: Sendable(calls[i])
      modifies this, pcb, repr
      ensures Core() && CursorSafe(s) && Settled(s) && fresh(repr - old(repr))
      ensures s.acked == old(s.acked) + len && s.fired == Completed(s.accepted, s.acked)
      ensures AddsFromCalls(old(s.accepted), s.accepted, calls) && old(pcb.stream) <= pcb.stream
      ensures !old(pcb.nagleDisabled && pcb.sndQueuelen >= pcb.sndQueueMax) && old(pcb.sndBuf) > 0 ==>
                |pcb.log| > |old(pcb.log)| || |old(pcb.stream)| == |Cat(old(s.accepted), |old(s.accepted)|)|
    {
      Credit(len);
      Finish(calls);
    }

    // lwIP's buffers change between calls.
    method Drain(sndBuf: uint16, queuelen: nat)
      requires Core()
      modifies pcb`sndBuf, pcb`sndQueuelen
      ensures Core() && pcb.sndBuf == sndBuf && pcb.sndQueuelen == queuelen
    {
      pcb.sndBuf, pcb.sndQueuelen := sndBuf, queuelen;
    }

    // Between two calls from outside.
    ghost predicate Resting(acked: nat)
      reads `pbuf, `ptail, `writeFlag, `posts, `callbacks, `nodes, `recs, `repr, `s, nodes, pcb
    {
      Core() && CursorSafe(s) && Settled(s) && s.acked == acked
    }

    ghost function Now(): Moment
      reads `s, pcb
    {
      Moment(s, pcb.sndBuf, pcb.sndQueuelen)
    }

    // What espconn_sent answers at a moment, before it queues anything.
    ghost function RefusalAt(m: Moment, data: seq<byte>, memory: bool): int {
      if |data| == 0 || !m.s.writeFlag then ESPCONN_ARG
      else if !(if copyOpt then m.queuelen < pcb.sndQueueMax else (|m.s.accepted| - m.s.fired) % 0x100 < pbufNum)
      then ESPCONN_MAXNUM
      else if !memory then ESPCONN_MEM
      else ESPCONN_OK
    }

    lemma RefusalIs(data: seq<byte>, memory: bool)
      requires Core()
      ensures Refusal(data, memory) == RefusalAt(Now(), data, memory)
    {
      StreamAndShape();
    }

    // An acknowledgement covers bytes in flight, keeps tot_len within 16 bits,
    // and does not find lwIP's buffers full while it frees the entry at ptail.
    ghost predicate Happens(m: Moment, len: nat) {
      && WellFormed(m.s) && 1 <= len && m.s.acked + len <= |Written(m.s)| && m.s.headTot + len < TWO_16
      && ((!(pcb.nagleDisabled && m.queuelen >= pcb.sndQueueMax) && m.sndBuf > 0) || !Endangers(m.s, len))
    }

    // What an event does.
    ghost predicate Follows(m: Moment, e: Event, n: Moment) {
      match e
      case Sending(data, memory) =>
        if RefusalAt(m, data, memory) == ESPCONN_OK
        then Grew(m.s, n.s) && n.s.accepted == m.s.accepted + [data]
        else n == m
      case Draining(sndBuf, queuelen) => n == Moment(m.s, sndBuf, queuelen)
      case Acking(len, calls) =>
        if Happens(m, len)
        then n.s.acked == m.s.acked + len && n.s.fired == Completed(n.s.accepted, n.s.acked)
             && AddsFromCalls(m.s.accepted, n.s.accepted, calls)
        else n == m
    }

    lemma CanAcknowledge(len: nat, acked: nat)
      requires Resting(acked) && 1 <= len && acked + len <= |pcb.stream|
      ensures Enabled(s, Ack(len)) && |nodes| > 0 && pbuf == nodes[0] && pbuf.data.totLen == s.headTot
      ensures Endangers(s, len) <==> ptail != null && ptail.data.unsent == 0 && acked + len == |pcb.stream|
      ensures |pcb.stream| == |Written(s)|
    {
      HasHead(len);
      if s.cur < |s.accepted| {
        CursorEntry(s, Held(), copyOpt);
      }
    }

    lemma CannotAcknowledge(len: nat, acked: nat)
      requires Resting(acked) && (len == 0 || acked + len > |pcb.stream|)
      ensures !Happens(Now(), len)
    {}

    method TryAcknowledge(len: uint16, calls: seq<seq<AppSend>>, acked: nat) returns (now: nat)
      requires Resting(acked) && GoodEvent(Acking(len, calls))
      modifies this, pcb, repr
      ensures Resting(now) && fresh(repr - old(repr))
      ensures Follows(old(Now()), Acking(len, calls), Now()) && old(pcb.stream) <= pcb.stream
      ensures 1 <= len && acked + len <= |old(pcb.stream)| && old(s.headTot) + len < TWO_16
              && !old(pcb.nagleDisabled && pcb.sndQueuelen >= pcb.sndQueueMax) && old(pcb.sndBuf) > 0
              ==> now == acked + len
    {
      now := acked;
      if len == 0 || acked + len > |pcb.stream| {
        CannotAcknowledge(len, acked);
      } else {
        CanAcknowledge(len, acked);
        var room := !pcb.Blocked() && pcb.sndBuf > 0;
        var endangers := ptail != null && ptail.data.unsent == 0 && acked + len == |pcb.stream|;
        if pbuf.data.totLen + len < TWO_16 && (room || !endangers) {
          Acknowledged(len, calls);
          now := acked + len;
        }
      }
    }

    // One event.
    method Step(e: Event, acked: nat) returns (now: nat)
      requires Resting(acked) && GoodEvent(e)
      modifies this, pcb, repr
      ensures Resting(now) && fresh(repr - old(repr))
      ensures Follows(old(Now()), e, Now()) && old(pcb.stream) <= pcb.stream
    {
      now := acked;
      match e
      case Sending(data, memory) =>
        RefusalIs(data, memory);
        var err := EspconnSent(data, memory);
      case Draining(sndBuf, queuelen) =>
        Drain(sndBuf, queuelen);
      case Acking(len, calls) =>
        now := TryAcknowledge(len, calls, acked);
    }

    // trace has the moments between the first i events, and each did its part.
    ghost predicate Traced(trace: seq<Moment>, events: seq<Event>, i: nat)
      requires i <= |events|
    {
      |trace| == i + 1 && forall j | 0 <= j < i :: Follows(trace[j], events[j], trace[j + 1])
    }

    lemma TracedMore(trace: seq<Moment>, events: seq<Event>, i: nat, m: Moment)
      requires i < |events| && Traced(trace, events, i) && Follows(trace[i], events[i], m)
      ensures Traced(trace + [m], events, i + 1)
    {}

    // The events in turn.
    method Handle(events: seq<Event>, start: nat) returns (acked: nat, ghost trace: seq<Moment>)
      requires Resting(start) && forall i | 0 <= i < |events| :: GoodEvent(events[i])
      modifies this, pcb, repr
      ensures Resting(acked) && fresh(repr - old(repr))
      ensures Traced(trace, events, |events|) && trace[0] == old(Now()) && trace[|events|] == Now()
    {
      acked := start;
      trace := [Now()];
      var i := 0;
      while i < |events|
        invariant i <= |events| && Resting(acked) && fresh(repr - old(repr))
        invariant Traced(trace, events, i) && trace[0] == old(Now()) && trace[i] == Now()
        decreases |events| - i
      {
        acked := Step(events[i], acked);
        TracedMore(trace, events, i, Now());
        trace := trace + [Now()];
        i := i + 1;
      }
    }

    // Over every interleaving of sends, acknowledgements and changes of lwIP's
    // buffers every event does what it is for; the bytes lwIP took are a prefix
    // of the payloads in acceptance order, and the callbacks so far are the
    // payloads wholly acknowledged.
    method Traffic(events: seq<Event>) returns (acked: nat, ghost trace: seq<Moment>)
      requires Fresh() && forall i | 0 <= i < |events| :: GoodEvent(events[i])
      modifies this, pcb, repr
      ensures Resting(acked) && fresh(repr - old(repr))
      ensures Traced(trace, events, |events|) && trace[0] == old(Now()) && trace[|events|] == Now()
      ensures pcb.stream <= Cat(s.accepted, |s.accepted|)
      ensures |callbacks| == Completed(s.accepted, acked)
      ensures forall i | 0 <= i < |callbacks| :: i < |s.accepted| && callbacks[i] == |s.accepted[i]|
    {
      FreshIsCore();
      acked, trace := Handle(events, 0);
      Exact();
      StreamAndShape();
    }
  }
}
