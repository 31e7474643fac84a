// Receiving with the manual-receive option: lwIP delivers pbuf chains into the
// ring buffer, the application reads them out and the receive window is
// credited with what it read.

module ManualReceive {
  import opened Machine
  import opened RingBuffer
  import opened Chains

  const ESPCONN_OK := 0
  const ESPCONN_MEM := -1
  const ESPCONN_ARG := -12

  // (sint16)x
  function ToSint16(x: nat): int {
    var u := x % 0x1_0000;
    if u < 0x8000 then u else u - 0x1_0000
  }

  // The loop over the pbuf chain. What fits is appended; nothing is overwritten.
  method StoreChain(rb: Ring, chain: seq<seq<byte>>)
    requires rb.Valid() && |rb.Contents()| + |Flatten(chain)| <= rb.Capacity()
    modifies rb, rb.buf
    ensures rb.Valid() && rb.Contents() == old(rb.Contents()) + Flatten(chain)
  {
    var i := 0;
    ghost var held, got := rb.Contents(), [];
    while i < |chain|
      invariant i <= |chain| && rb.Valid()
      invariant got == Flatten(chain[..i]) && rb.Contents() == held + got
      decreases |chain| - i
    {
      FlattenStep(chain, i);
      StoreSegment(rb, chain[i], held, got);
      got := got + chain[i];
      i := i + 1;
    }
    assert chain[..i] == chain;
  }

  method StoreSegment(rb: Ring, segment: seq<byte>, ghost held: seq<byte>, ghost got: seq<byte>)
    requires rb.Valid() && rb.Contents() == held + got && |held + got| + |segment| <= rb.Capacity()
    modifies rb, rb.buf
    ensures rb.Valid() && rb.Contents() == held + (got + segment)
  {
    var h := rb.MemcpyInto(segment);
    assert (held + got) + segment == held + (got + segment);
  }

  // The copy of espconn_recv; got is what it hands out.
  method ReadOut(rb: Ring, mem: array<byte>, n: uint32) returns (ghost got: seq<byte>)
    requires rb.Valid() && mem != rb.buf && (n <= |rb.Contents()| ==> n <= mem.Length)
    modifies rb`tail, mem
    ensures rb.Valid() && got + rb.Contents() == old(rb.Contents())
    ensures n <= |old(rb.Contents())| ==> |got| == n && mem[..n] == got
    ensures n > |old(rb.Contents())| ==> got == []
  {
    ghost var held := rb.Contents();
    var t := rb.MemcpyFrom(mem, n);
    got := [];
    if t.Some? {
      TakeAndDrop(held, n);
      got := held[..n];
    }
  }

  lemma TakeAndDrop(s: seq<byte>, n: nat)
    requires n <= |s|
    ensures s[..n] + s[n..] == s
  {}

  // How many bytes espconn_recv copies, what it returns, and the window after it,
  // when stored bytes are held.
  function Copied(len: uint32, stored: nat): (n: nat)
    ensures n <= stored
  {
    if len >= TWO_31 then 0 else if len <= stored then len else stored
  }

  function Answer(len: uint32, stored: nat): int {
    if stored == 0 then ESPCONN_OK
    else ToSint16(if len >= TWO_31 then len else Copied(len, stored))
  }

  function Credited(wnd: nat, rcv: nat, len: uint16): nat {
    if rcv + len <= wnd then rcv + len else wnd
  }

  function Recredited(wnd: nat, rcv: nat, established: bool, len: uint32, stored: nat): nat {
    if !established || stored == 0 then rcv
    else Credited(wnd, rcv, (if len >= TWO_31 then len else Copied(len, stored)) % 0x1_0000)
  }

  // The part of espconn_recv on a connection with a buffer: what it returns, how
  // much it credits to the window, and what it hands out.
  method Fetch(rb: Ring, mem: array<byte>, len: uint32) returns (r: int, credit: uint16, ghost got: seq<byte>)
    requires rb.Valid() && mem != rb.buf && len != 0
    requires |rb.Contents()| <= mem.Length || len <= mem.Length
    modifies rb`tail, mem
    ensures rb.Valid() && got + rb.Contents() == old(rb.Contents())
    ensures got == old(rb.Contents())[..|got|] && rb.Contents() == old(rb.Contents())[|got|..]
    ensures |got| == Copied(len, |old(rb.Contents())|) && mem[..|got|] == got
    ensures r == Answer(len, |old(rb.Contents())|)
    ensures credit == if |old(rb.Contents())| == 0 then 0
                      else (if len >= TWO_31 then len else |got|) % 0x1_0000
  {
    got, credit := [], 0;
    var used := rb.BytesUsed();
    if used == 0 {
      return ESPCONN_OK, 0, [];
    }
    var n := len;
    if ToInt(n) > used {
      n := used;
    }
    got := ReadOut(rb, mem, n);
    credit := n % 0x1_0000;
    r := ToSint16(n);
  }

  lemma Reassociate(taken: seq<byte>, got: seq<byte>, rest: seq<byte>, pending: seq<byte>)
    ensures taken + (got + rest) == (taken + got) + rest
    ensures taken + (got + rest) + pending == (taken + got) + rest + pending
    ensures (got + rest)[..|got|] == got && (got + rest)[|got|..] == rest
  {}

  lemma NonePending(taken: seq<byte>, held: seq<byte>, more: seq<byte>, pending: seq<seq<byte>>)
    requires |pending| == 0
    ensures taken + (held + more) + Flatten(pending) == taken + held + more
    ensures |Flatten(pending)| == 0
  {}

  class Connection {
    const TCP_WND: nat             // the receive window's full size
    var readbuf: Ring?
    var rcvWnd: nat                // the window lwIP advertises
    var established: bool
    var pending: seq<seq<byte>>    // data lwIP holds until the callback takes it

    ghost var arrived: seq<byte>   // every byte TCP received, in order
    ghost var taken: seq<byte>     // every byte handed to the application

    ghost function Buffered(): seq<byte>
      reads this, readbuf, if readbuf != null then {readbuf.buf} else {}
      requires readbuf != null ==> readbuf.Valid()
    {
      if readbuf == null then [] else readbuf.Contents()
    }

    ghost predicate BufferOk()
      reads this, readbuf
    {
      && TCP_WND + 1 < TWO_31
      && (readbuf != null ==> readbuf.Valid() && readbuf.Capacity() == TCP_WND)
    }

    // Bytes received are those taken, buffered and pending, in this order.
    ghost predicate StreamOk()
      reads this, readbuf, if readbuf != null then {readbuf.buf} else {}
    {
      BufferOk() && arrived == taken + Buffered() + Flatten(pending)
    }

    // What is advertised and what is stored never exceed the full window.
    ghost predicate WindowOk()
      reads this, readbuf, if readbuf != null then {readbuf.buf} else {}
      requires BufferOk()
    {
      rcvWnd + |Buffered()| + |Flatten(pending)| <= TCP_WND
    }

    ghost predicate Valid()
      reads this, readbuf, if readbuf != null then {readbuf.buf} else {}
    {
      StreamOk() && WindowOk()
    }

    ghost function Seen(): View
      reads this, readbuf, if readbuf != null then {readbuf.buf} else {}
      requires readbuf != null ==> readbuf.Valid()
    {
      View(rcvWnd, established, if readbuf == null then None else Some(readbuf.Contents()), pending, arrived, taken)
    }

    constructor (wnd: nat)
      requires wnd + 1 < TWO_31
      ensures Valid() && TCP_WND == wnd && readbuf == null
      ensures Seen() == View(wnd, true, None, [], [], [])
    {
      TCP_WND := wnd;
      readbuf, rcvWnd, established, pending := null, wnd, true, [];
      arrived, taken := [], [];
    }

    // lwIP receives a chain that fits the advertised window. It holds at most
    // one chain back.
    method Arrive(chain: Chain)
      requires Valid() && pending == [] && |Flatten(chain)| <= rcvWnd
      modifies `rcvWnd, `pending, `arrived
      ensures Valid() && taken == old(taken)
      ensures arrived == old(arrived) + Flatten(chain) && pending == chain
      ensures rcvWnd == old(rcvWnd) - |Flatten(chain)|
    {
      rcvWnd := rcvWnd - |Flatten(chain)|;
      arrived := arrived + Flatten(chain);
      pending := chain;
    }

    // espconn_tcp_recv: store every segment, then tell the application how much
    // there is. memory says that ringbuf_new finds room. A refusal leaves the
    // chain with lwIP. Without a chain the peer has closed, and so does espconn.
    method TcpRecv(memory: bool) returns (err: int, notified: Option<nat>, closes: bool)
      requires Valid()
      modifies `readbuf, `pending, readbuf, if readbuf != null then {readbuf.buf} else {}
      ensures Valid()
      ensures old(readbuf) != null ==> readbuf == old(readbuf)
      ensures readbuf != old(readbuf) ==> readbuf != null && fresh(readbuf) && fresh(readbuf.buf)
      ensures err == ESPCONN_MEM <==> old(readbuf) == null && !memory
      ensures err == ESPCONN_MEM ==> pending == old(pending) && readbuf == null && notified == None && !closes
      ensures err != ESPCONN_MEM ==>
                && err == ESPCONN_OK && readbuf != null && pending == []
                && Buffered() == old(Buffered()) + Flatten(old(pending))
                && closes == (old(pending) == [])
                && notified == if closes then None else Some(|Buffered()|)
    {
      if readbuf == null {
        if !memory {
          return ESPCONN_MEM, None, false;
        }
        readbuf := new Ring(TCP_WND);
      }
      closes, notified := pending == [], None;
      if !closes {
        var n := Accept();
        notified := Some(n);
      }
      err := ESPCONN_OK;
    }

    method Accept() returns (notified: nat)
      requires Valid() && readbuf != null
      modifies `pending, readbuf, readbuf.buf
      ensures Valid() && pending == []
      ensures Buffered() == old(Buffered()) + Flatten(old(pending)) && notified == |Buffered()|
    {
      ghost var held, more := readbuf.Contents(), Flatten(pending);
      StoreChain(readbuf, pending);
      notified := readbuf.BytesUsed();
      pending := [];
      NonePending(taken, held, more, pending);
    }

    // espconn_recv. known says that the connection is found and is a TCP one.
    // A length of 2^31 or more passes the clamp as a negative int: nothing is
    // copied, yet the window is credited. It stays sound exactly if it had room
    // for that credit, or there is none to give.
    method EspconnRecv(known: bool, mem: array<byte>, len: uint32) returns (r: int)
      requires Valid() && (readbuf != null ==> mem != readbuf.buf)
      requires |Buffered()| <= mem.Length || len <= mem.Length
      modifies `rcvWnd, `taken, (if readbuf != null then {readbuf} else {})`tail, mem
      ensures StreamOk()
      ensures len == 0 || !known ==> r == ESPCONN_ARG && taken == old(taken) && rcvWnd == old(rcvWnd)
      ensures len != 0 && known && readbuf == null ==> r == ESPCONN_MEM && taken == old(taken) && rcvWnd == old(rcvWnd)
      ensures len != 0 && known && readbuf != null ==>
                var n := Copied(len, |old(Buffered())|);
                mem[..n] == old(Buffered())[..n] && r == Answer(len, |old(Buffered())|)
      ensures len != 0 && known && readbuf != null && len < TWO_31 ==>
                var n := if len <= |old(Buffered())| then len else |old(Buffered())|;
                taken == old(taken) + old(Buffered())[..n] && (n < 0x8000 ==> r == n)
      ensures Seen() == if known then After(old(Seen()), Reading(len), TCP_WND) else old(Seen())
      ensures WindowOk() <==>
                || len < TWO_31 || !known || !established || |old(Buffered())| == 0
                || old(rcvWnd) + len % 0x1_0000 + |old(Buffered())| + |Flatten(pending)| <= TCP_WND
    {
      if len == 0 || !known {
        return ESPCONN_ARG;
      }
      if readbuf == null {
        return ESPCONN_MEM;
      }
      AnswerMeans(len, |readbuf.Contents()|);
      r := Take(mem, len);
    }

    method Take(mem: array<byte>, len: uint32) returns (r: int)
      requires Valid() && readbuf != null && mem != readbuf.buf && len != 0
      requires |Buffered()| <= mem.Length || len <= mem.Length
      modifies `rcvWnd, `taken, readbuf`tail, mem
      ensures StreamOk() && Seen() == After(old(Seen()), Reading(len), TCP_WND)
      ensures var held := old(Buffered());
              mem[..Copied(len, |held|)] == held[..Copied(len, |held|)] && r == Answer(len, |held|)
      ensures WindowOk() <==>
                || len < TWO_31 || !established || |old(Buffered())| == 0
                || old(rcvWnd) + len % 0x1_0000 + |old(Buffered())| + |Flatten(pending)| <= TCP_WND
    {
      ghost var stored, waiting := |readbuf.Contents()|, |Flatten(pending)|;
      RecreditedFits(TCP_WND, rcvWnd, established, len, stored, waiting);
      r := Copy(mem, len);
    }

    method Copy(mem: array<byte>, len: uint32) returns (r: int)
      requires Valid() && readbuf != null && mem != readbuf.buf && len != 0
      requires |Buffered()| <= mem.Length || len <= mem.Length
      modifies `rcvWnd, `taken, readbuf`tail, mem
      ensures BufferOk() && arrived == taken + readbuf.Contents() + Flatten(pending)
      ensures var held := old(readbuf.Contents());
              var n := Copied(len, |held|);
              && taken == old(taken) + held[..n] && mem[..n] == held[..n]
              && readbuf.Contents() == held[n..]
              && r == Answer(len, |held|)
              && rcvWnd == Recredited(TCP_WND, old(rcvWnd), established, len, |held|)
    {
      var credit;
      ghost var got, pend := [], Flatten(pending);
      r, credit, got := Fetch(readbuf, mem, len);
      ghost var rest := readbuf.Contents();
      Reassociate(taken, got, rest, pend);
      taken := taken + got;
      assert arrived == taken + rest + pend;
      if established {
        TcpRecved(credit);
      }
    }

    // lwIP's tcp_recved: the window grows by len, up to its full size.
    method TcpRecved(len: uint16)
      modifies `rcvWnd
      ensures rcvWnd == Credited(TCP_WND, old(rcvWnd), len)
    {
      rcvWnd := if rcvWnd + len <= TCP_WND then rcvWnd + len else TCP_WND;
    }

    // One event of a session; bytes are what a read hands out, news what arrives.
    // The stream stays whole in any case, the window exactly after a good event.
    method Handle(e: Event) returns (bytes: seq<byte>, news: seq<byte>)
      requires Valid()
      modifies this, readbuf, if readbuf != null then {readbuf.buf} else {}
      ensures StreamOk() && Seen() == After(old(Seen()), e, TCP_WND)
      ensures Valid() <==> GoodEvent(old(Seen()), e, TCP_WND)
      ensures taken == old(taken) + bytes && arrived == old(arrived) + news
      ensures readbuf != old(readbuf) ==> readbuf != null && fresh(readbuf) && fresh(readbuf.buf)
    {
      ghost var v := Seen();
      ValidIsFit();
      bytes, news := Perform(e);
      EventKeepsFitIff(v, e, TCP_WND);
      ValidIsFit();
    }

    lemma ValidIsFit()
      requires StreamOk()
      ensures Valid() <==> Fits(Seen(), TCP_WND)
    {}

    method Perform(e: Event) returns (bytes: seq<byte>, news: seq<byte>)
      requires Valid()
      modifies this, readbuf, if readbuf != null then {readbuf.buf} else {}
      ensures StreamOk() && Seen() == After(old(Seen()), e, TCP_WND)
      ensures taken == old(taken) + bytes && arrived == old(arrived) + news
      ensures readbuf != old(readbuf) ==> readbuf != null && fresh(readbuf) && fresh(readbuf.buf)
    {
      bytes, news := [], [];
      match e
      case Arrival(chain) =>
        if pending == [] && |Flatten(chain)| <= rcvWnd {
          Arrive(chain);
          news := Flatten(chain);
        }
      case Delivery(memory) =>
        var err, notified, closes := TcpRecv(memory);
      case Reading(len) =>
        bytes := ReadSome(len);
      case StateChange(est) =>
        established := est;
    }

    // An application read into a buffer of its own.
    method ReadSome(len: uint32) returns (bytes: seq<byte>)
      requires Valid()
      modifies `rcvWnd, `taken, (if readbuf != null then {readbuf} else {})`tail
      ensures StreamOk() && Seen() == After(old(Seen()), Reading(len), TCP_WND) && taken == old(taken) + bytes
    {
      ghost var v := Seen();
      var mem := new byte[len](_ => 0);
      var used := if readbuf == null then 0 else readbuf.BytesUsed();
      var r := EspconnRecv(true, mem, len);
      bytes := mem[..Copied(len, used)];
      ReadGives(v, len, bytes, TCP_WND);
    }
  }

  // The window after a read stays within what is free, unless the length is
  // bogus; then exactly if it had room for the bogus credit.
  lemma RecreditedFits(wnd: nat, rcv: nat, established: bool, len: uint32, stored: nat, waiting: nat)
    requires rcv + stored + waiting <= wnd
    ensures Recredited(wnd, rcv, established, len, stored) + (stored - Copied(len, stored)) + waiting <= wnd <==>
              || len < TWO_31 || !established || stored == 0
              || rcv + len % 0x1_0000 + stored + waiting <= wnd
  {}

  // ----- whole sessions -----

  datatype Event =
    | Arrival(chain: Chain)
    | Delivery(memory: bool)
    | Reading(len: uint32)
    | StateChange(established: bool)

  // What there is to see of a connection.
  datatype View = View(
    window: nat, established: bool, buffer: Option<seq<byte>>, pending: seq<seq<byte>>,
    received: seq<byte>, read: seq<byte>)

  // What each event does. An arrival that does not fit the window, or comes
  // while a chain is held back, does not happen.
  function After(v: View, e: Event, wnd: nat): View {
    match e
    case Arrival(chain) =>
      if |v.pending| > 0 || |Flatten(chain)| > v.window then v
      else v.(window := v.window - |Flatten(chain)|, pending := chain, received := v.received + Flatten(chain))
    case Delivery(memory) =>
      if v.buffer.None? && !memory then v
      else v.(buffer := Some(Stored(v) + Flatten(v.pending)), pending := [])
    case Reading(len) =>
      if len == 0 || v.buffer.None? then v
      else
        var n := Copied(len, |v.buffer.value|);
        v.(window := Recredited(wnd, v.window, v.established, len, |v.buffer.value|),
           buffer := Some(v.buffer.value[n..]), read := v.read + v.buffer.value[..n])
    case StateChange(established) => v.(established := established)
  }

  function Stored(v: View): seq<byte> {
    if v.buffer.None? then [] else v.buffer.value
  }

  // What is advertised, stored and waiting fits the full window.
  ghost predicate Fits(v: View, wnd: nat) {
    v.window + |Stored(v)| + |Flatten(v.pending)| <= wnd
  }

  // A read of 2^31 bytes or more is harmless if it credits nothing, or there is
  // room for what it credits.
  ghost predicate GoodEvent(v: View, e: Event, wnd: nat) {
    e.Reading? && e.len >= TWO_31 ==>
      || v.buffer.None? || !v.established || |Stored(v)| == 0
      || v.window + e.len % 0x1_0000 + |Stored(v)| + |Flatten(v.pending)| <= wnd
  }

  // The window before event i, and event i itself.
  ghost predicate FitsAt(events: seq<Event>, i: nat, wnd: nat)
    requires i <= |events|
  {
    Fits(Replay(events[..i], wnd), wnd)
  }

  ghost predicate GoodAt(events: seq<Event>, i: nat, wnd: nat)
    requires i < |events|
  {
    GoodEvent(Replay(events[..i], wnd), events[i], wnd)
  }

  ghost predicate GoodSession(events: seq<Event>, wnd: nat) {
    forall i | 0 <= i < |events| :: GoodAt(events, i, wnd)
  }

  lemma EventKeepsFitIff(v: View, e: Event, wnd: nat)
    requires Fits(v, wnd)
    ensures Fits(After(v, e, wnd), wnd) <==> GoodEvent(v, e, wnd)
  {
    match e
    case Arrival(chain) =>
    case Delivery(memory) =>
      DeliveredFits(v, memory, wnd);
    case Reading(len) =>
      if len != 0 && v.buffer.Some? {
        ReadFitsIff(v, len, wnd);
      }
    case StateChange(est) =>
  }

  lemma DeliveredFits(v: View, memory: bool, wnd: nat)
    requires Fits(v, wnd)
    ensures Fits(After(v, Delivery(memory), wnd), wnd)
  {
    var none: seq<seq<byte>> := [];
    assert |Flatten(none)| == 0;
  }

  lemma ReadFitsIff(v: View, len: uint32, wnd: nat)
    requires Fits(v, wnd) && len != 0 && v.buffer.Some?
    ensures Fits(After(v, Reading(len), wnd), wnd) <==> GoodEvent(v, Reading(len), wnd)
  {
    RecreditedFits(wnd, v.window, v.established, len, |Stored(v)|, |Flatten(v.pending)|);
  }

  lemma GoodInSession(events: seq<Event>, i: nat, wnd: nat)
    requires GoodSession(events, wnd) && i < |events|
    ensures GoodEvent(Replay(events[..i], wnd), events[i], wnd)
  {
    assert GoodAt(events, i, wnd);
  }

  lemma ReadGives(v: View, len: uint32, bytes: seq<byte>, wnd: nat)
    requires len == 0 || v.buffer.None? ==> |bytes| == 0
    requires len != 0 && v.buffer.Some? ==> bytes == v.buffer.value[..Copied(len, |v.buffer.value|)]
    ensures After(v, Reading(len), wnd).read == v.read + bytes
  {}

  lemma NextFitsIff(events: seq<Event>, i: nat, wnd: nat)
    requires i < |events| && FitsAt(events, i, wnd)
    ensures FitsAt(events, i + 1, wnd) <==> GoodAt(events, i, wnd)
  {
    ReplayStep(events, i, wnd);
    EventKeepsFitIff(Replay(events[..i], wnd), events[i], wnd);
  }

  lemma {:induction false} GoodSessionFits(events: seq<Event>, n: nat, wnd: nat)
    requires GoodSession(events, wnd) && n <= |events|
    ensures FitsAt(events, n, wnd)
  {
    if n == 0 {
      ReplayStart(events, wnd);
      StartFits(wnd);
    } else {
      GoodSessionFits(events, n - 1, wnd);
      NextFitsIff(events, n - 1, wnd);
    }
  }

  lemma StartFits(wnd: nat)
    ensures Fits(View(wnd, true, None, [], [], []), wnd)
  {}

  // WHEN THE WINDOW HOLDS. What is advertised and stored stays within the window
  // at every moment of a session exactly if each of its reads of 2^31 bytes or
  // more is harmless where it happens.
  lemma WindowHoldsIff(events: seq<Event>, wnd: nat)
    ensures (forall i | 0 <= i <= |events| :: FitsAt(events, i, wnd)) <==> GoodSession(events, wnd)
  {
    if GoodSession(events, wnd) {
      forall i | 0 <= i <= |events| ensures FitsAt(events, i, wnd) {
        GoodSessionFits(events, i, wnd);
      }
    }
    if forall i | 0 <= i <= |events| :: FitsAt(events, i, wnd) {
      forall i | 0 <= i < |events| ensures GoodAt(events, i, wnd) {
        assert FitsAt(events, i + 1, wnd);
        NextFitsIff(events, i, wnd);
      }
    }
  }

  // ----- the window opens again -----

  // The bytes advertised, stored and waiting.
  ghost function Budget(v: View): nat {
    v.window + |Stored(v)| + |Flatten(v.pending)|
  }

  // What espconn_recv returns for a connection with a buffer: 0 if nothing is
  // stored, else the number of bytes handed out as a sint16, which below 2^15 is
  // that number; for a length of 2^31 or more the length itself as a sint16.
  lemma AnswerMeans(len: uint32, stored: nat)
    ensures var n := if len <= stored then len else stored;
            && (stored == 0 ==> Answer(len, stored) == 0)
            && (len < TWO_31 && n < 0x8000 ==> Answer(len, stored) == n)
            && (stored > 0 ==> -0x8000 <= Answer(len, stored) < 0x8000)
            && (stored > 0 ==> (Answer(len, stored) - if len < TWO_31 then n else len) % 0x1_0000 == 0)
  {
    var n := if len >= TWO_31 then len else Copied(len, stored);
    CutToSint16(n);
  }

  lemma CutToSint16(n: nat)
    ensures -0x8000 <= ToSint16(n) < 0x8000 && (ToSint16(n) - n) % 0x1_0000 == 0
    ensures n < 0x8000 ==> ToSint16(n) == n
  {}

  // WHAT A READ DOES, for every length. Below 2^31 it hands out the oldest bytes,
  // as many as there are and it asks for, and on an established connection gives
  // exactly those back to the window; otherwise the window stays. From 2^31 on it
  // hands out nothing, and what it adds to the window is the length cut to 16 bits.
  lemma ReadMoves(v: View, len: uint32, wnd: nat)
    requires Fits(v, wnd) && wnd < TWO_16
    ensures var w := After(v, Reading(len), wnd);
            var n := |w.read| - |v.read|;
            && w.pending == v.pending && w.received == v.received && w.established == v.established
            && n >= 0 && w.read == v.read + Stored(v)[..n] && Stored(w) == Stored(v)[n..]
            && n == (if len >= TWO_31 then 0 else if len <= |Stored(v)| then len else |Stored(v)|)
            && (len < TWO_31 ==> w.window == v.window + if v.established then n else 0)
            && (len >= TWO_31 ==>
                w.window == if !v.established || |Stored(v)| == 0 then v.window
                            else if v.window + len % 0x1_0000 <= wnd then v.window + len % 0x1_0000 else wnd)
  {
    if len < TWO_16 {
      BelowUint16(len);
    }
    BelowUint16(|Stored(v)|);
  }

  lemma BelowUint16(n: nat)
    requires n < TWO_16
    ensures n % 0x1_0000 == n
  {}

  // A read loses or invents window exactly if it hands out bytes while the
  // connection is not established, or is one of 2^31 or more that credits some.
  predicate Conserves(v: View, e: Event) {
    e.Reading? && |Stored(v)| > 0 && e.len != 0 ==>
      if e.len < TWO_31 then v.established else !v.established || e.len % 0x1_0000 == 0
  }

  lemma BudgetKeptIff(v: View, e: Event, wnd: nat)
    requires Budget(v) == wnd < TWO_16
    ensures Budget(After(v, e, wnd)) == wnd <==> Conserves(v, e)
  {
    match e
    case Arrival(chain) =>
    case Delivery(memory) =>
      DeliveredFits(v, memory, wnd);
    case Reading(len) =>
      ReadMoves(v, len, wnd);
    case StateChange(est) =>
  }

  ghost predicate BudgetAt(events: seq<Event>, i: nat, wnd: nat)
    requires i <= |events|
  {
    Budget(Replay(events[..i], wnd)) == wnd
  }

  ghost predicate ConservesAt(events: seq<Event>, i: nat, wnd: nat)
    requires i < |events|
  {
    Conserves(Replay(events[..i], wnd), events[i])
  }

  lemma {:induction false} BudgetHeld(events: seq<Event>, n: nat, wnd: nat)
    requires wnd < TWO_16 && n <= |events| && forall i | 0 <= i < n :: ConservesAt(events, i, wnd)
    ensures BudgetAt(events, n, wnd)
  {
    if n == 0 {
      ReplayStart(events, wnd);
      StartBudget(wnd);
    } else {
      BudgetHeld(events, n - 1, wnd);
      assert ConservesAt(events, n - 1, wnd);
      NextBudgetIff(events, n - 1, wnd);
    }
  }

  lemma StartBudget(wnd: nat)
    ensures Budget(View(wnd, true, None, [], [], [])) == wnd
  {}

  lemma NextBudgetIff(events: seq<Event>, i: nat, wnd: nat)
    requires i < |events| && BudgetAt(events, i, wnd) && wnd < TWO_16
    ensures BudgetAt(events, i + 1, wnd) <==> ConservesAt(events, i, wnd)
  {
    ReplayStep(events, i, wnd);
    BudgetKeptIff(Replay(events[..i], wnd), events[i], wnd);
  }

  // THE WINDOW IS CONSERVED. In every session bytes advertised, stored and
  // waiting add up to the full window at every moment, exactly if each of its
  // reads conserves them; so all reads of an established connection that are
  // below 2^31 bytes do.
  lemma WindowConservedIff(events: seq<Event>, wnd: nat)
    requires wnd < TWO_16
    ensures (forall i | 0 <= i <= |events| :: BudgetAt(events, i, wnd)) <==>
              forall i | 0 <= i < |events| :: ConservesAt(events, i, wnd)
  {
    if forall i | 0 <= i < |events| :: ConservesAt(events, i, wnd) {
      forall i | 0 <= i <= |events| ensures BudgetAt(events, i, wnd) {
        BudgetHeld(events, i, wnd);
      }
    }
    if forall i | 0 <= i <= |events| :: BudgetAt(events, i, wnd) {
      forall i | 0 <= i < |events| ensures ConservesAt(events, i, wnd) {
        assert BudgetAt(events, i + 1, wnd);
        NextBudgetIff(events, i, wnd);
      }
    }
  }

  predicate Ordinary(e: Event) {
    !e.StateChange? && (e.Reading? ==> e.len < TWO_31)
  }

  lemma {:induction false} StaysEstablished(events: seq<Event>, n: nat, wnd: nat)
    requires n <= |events| && forall i | 0 <= i < n :: Ordinary(events[i])
    ensures Replay(events[..n], wnd).established
  {
    if n == 0 {
      ReplayStart(events, wnd);
    } else {
      StaysEstablished(events, n - 1, wnd);
      ReplayStep(events, n - 1, wnd);
    }
  }

  // NO STALL. While the connection stays established and reads stay below 2^31
  // bytes, the sum is the full window, and once everything is read the full
  // window is advertised again.
  lemma WindowReopens(events: seq<Event>, wnd: nat)
    requires wnd < TWO_16 && forall i | 0 <= i < |events| :: Ordinary(events[i])
    ensures var v := Replay(events, wnd);
            && v.window + |Stored(v)| + |Flatten(v.pending)| == wnd
            && (v.read == v.received ==> v.window == wnd)
  {
    forall i | 0 <= i < |events| ensures ConservesAt(events, i, wnd) {
      StaysEstablished(events, i, wnd);
    }
    BudgetHeld(events, |events|, wnd);
    assert events[..|events|] == events;
    StreamIsWhole(events, wnd);
  }

  lemma {:induction false} StreamIsWhole(events: seq<Event>, wnd: nat)
    ensures var v := Replay(events, wnd);
            v.read + Stored(v) + Flatten(v.pending) == v.received
  {
    if |events| > 0 {
      StreamIsWhole(events[..|events| - 1], wnd);
      StreamStays(Replay(events[..|events| - 1], wnd), events[|events| - 1], wnd);
    }
  }

  lemma StreamStays(v: View, e: Event, wnd: nat)
    requires v.read + Stored(v) + Flatten(v.pending) == v.received
    ensures var w := After(v, e, wnd);
            w.read + Stored(w) + Flatten(w.pending) == w.received
  {
    var none: seq<seq<byte>> := [];
    assert |Flatten(none)| == 0;
    if e.Reading? {
      var n := if v.buffer.None? then 0 else Copied(e.len, |v.buffer.value|);
      Reassociate(v.read, Stored(v)[..n], Stored(v)[n..], Flatten(v.pending));
      assert Stored(v)[..n] + Stored(v)[n..] == Stored(v);
    } else if e.Delivery? {
      Reassociate(v.read, Stored(v), Flatten(v.pending), Flatten(none));
    }
  }

  function Replay(events: seq<Event>, wnd: nat): View {
    if |events| == 0 then View(wnd, true, None, [], [], [])
    else After(Replay(events[..|events| - 1], wnd), events[|events| - 1], wnd)
  }

  lemma ReplayStart(events: seq<Event>, wnd: nat)
    ensures Replay(events[..0], wnd) == View(wnd, true, None, [], [], [])
  {}

  lemma ReplayStep(events: seq<Event>, i: nat, wnd: nat)
    requires i < |events|
    ensures Replay(events[..i + 1], wnd) == After(Replay(events[..i], wnd), events[i], wnd)
  {
    assert events[..i + 1][..i] == events[..i];
  }

  // END TO END. Every session of arrivals, deliveries and harmless reads leaves
  // what its events say. What the application has read is a prefix of what TCP received,
  // and the rest is still stored: nothing is lost, repeated or reordered.
  method Session(wnd: nat, events: seq<Event>) returns (c: Connection, out: seq<byte>, received: seq<byte>)
    requires wnd + 1 < TWO_31
    requires GoodSession(events, wnd)
    ensures fresh(c) && c.Valid() && c.TCP_WND == wnd
    ensures c.Seen() == Replay(events, wnd) && received == c.Seen().received && out == c.Seen().read
    ensures out + c.Buffered() + Flatten(c.pending) == received
    ensures out <= received
  {
    c := new Connection(wnd);
    out, received := [], [];
    ReplayStart(events, wnd);
    for i := 0 to |events|
      invariant fresh(c) && c.Valid() && c.TCP_WND == wnd
      invariant c.readbuf != null ==> fresh(c.readbuf) && fresh(c.readbuf.buf)
      invariant out == c.taken && received == c.arrived && c.Seen() == Replay(events[..i], wnd)
    {
      ReplayStep(events, i, wnd);
      GoodInSession(events, i, wnd);
      var bytes, news := c.Handle(events[i]);
      out, received := out + bytes, received + news;
    }
    assert events[..|events|] == events;
  }

  // Whatever was received can be read: once memory is found, one read that is
  // long enough fetches all of it.
  lemma NothingIsStuck(v: View, len: uint32, wnd: nat)
    requires v.read + Stored(v) + Flatten(v.pending) == v.received
    requires |Stored(v)| + |Flatten(v.pending)| <= len < TWO_31 && len != 0
    ensures After(After(v, Delivery(true), wnd), Reading(len), wnd).read == v.received
  {
    var w := After(v, Delivery(true), wnd);
    assert w.read + w.buffer.value == v.received;
    assert w.buffer.value[..|w.buffer.value|] == w.buffer.value;
  }

  // A length of 2^31 + 1 with one byte stored and a window of 2: nothing is read,
  // and what is advertised and stored no longer fits.
  lemma BogusCredit(x: byte, stored: seq<byte>)
    requires stored == [x]
    ensures var v := View(1, true, Some(stored), [], stored, []);
            var w := After(v, Reading(0x8000_0001), 2);
            && v.window + |Stored(v)| == 2 && Stored(w) == stored
            && w.read == v.read && w.window + |Stored(w)| > 2
  {
    assert 0x8000_0001 % 0x1_0000 == 1;
  }
}
