// The TCP send queue of one connection, as a state machine over the steps its
// code takes: accepting a payload, writing part of the payload at the cursor,
// moving the cursor on, receiving an acknowledgement, completing the head.
// Payloads are numbered in acceptance order; SendQueue keeps them in a linked
// list and is proved to take exactly these steps.

module SendStream {
  import opened Machine

  datatype State = State(
    accepted: seq<seq<byte>>,  // every payload accepted so far
    cur: nat,                  // the payload at ptail; |accepted| when ptail is null
    part: nat,                 // bytes of it already handed to tcp_write
    fired: nat,                // payloads completed and freed; the head is number fired
    headTot: nat,              // tot_len of the head
    carry: nat,                // acknowledged bytes between two rounds of the ack loop
    acked: nat,                // bytes acknowledged in all
    writeFlag: bool,
    posts: nat)                // SIG_ESPCONN_WRITE posted

  // A new connection.
  predicate Initial(s: State) {
    && |s.accepted| == 0 && s.cur == |s.accepted| && s.part == 0 && s.fired == s.cur
    && s.headTot == 0 && s.carry == 0 && s.acked == 0 && s.writeFlag && s.posts == 0
  }

  // The first k payloads, concatenated.
  function Cat(a: seq<seq<byte>>, k: nat): (r: seq<byte>)
    requires k <= |a|
    ensures |r| == Total(a, k)
  {
    if k == 0 then [] else Cat(a, k - 1) + a[k - 1]
  }

  function Total(a: seq<seq<byte>>, k: nat): nat
    requires k <= |a|
  {
    if k == 0 then 0 else Total(a, k - 1) + |a[k - 1]|
  }

  // How many payloads fit, whole and from the first on, into n bytes.
  function Completed(a: seq<seq<byte>>, n: nat): (k: nat)
    ensures k <= |a|
  {
    if |a| == 0 then 0
    else if Total(a, |a|) <= n then |a|
    else Completed(a[..|a| - 1], n)
  }

  ghost predicate WellFormed(s: State) {
    && (forall i | 0 <= i < |s.accepted| :: 1 <= |s.accepted[i]| < TWO_16)
    && s.fired <= s.cur <= |s.accepted|
    && (if s.cur < |s.accepted| then s.part <= |s.accepted[s.cur]| else s.part == 0)
    && (s.fired == |s.accepted| ==> s.headTot == 0)
  }

  // The bytes handed to tcp_write.
  function Written(s: State): seq<byte>
    requires s.cur <= |s.accepted| && (s.cur < |s.accepted| ==> s.part <= |s.accepted[s.cur]|)
  {
    Cat(s.accepted, s.cur) + if s.cur < |s.accepted| then s.accepted[s.cur][..s.part] else []
  }

  // Acknowledged bytes are the lengths of the freed payloads, the carry and the
  // head's share; only written bytes are acknowledged.
  ghost predicate Accounted(s: State)
    requires WellFormed(s)
  {
    && Total(s.accepted, s.fired) + s.carry + s.headTot == s.acked
    && s.acked <= |Written(s)|
  }

  // With the copy option: only the last payload has unsent bytes, the flag says
  // whether it has none, and every payload wholly sent was announced once.
  ghost predicate Announced(s: State)
    requires WellFormed(s)
  {
    && (s.cur + 1 < |s.accepted| ==> s.cur + 2 == |s.accepted| && s.part == |s.accepted[s.cur]|)
    && (s.writeFlag <==> AllSent(s))
    && s.posts == if AllSent(s) then |s.accepted| else |s.accepted| - 1
  }

  // Nothing is unsent. Payloads behind the cursor have nothing sent.
  ghost predicate AllSent(s: State)
    requires WellFormed(s)
  {
    s.cur == |s.accepted| || (s.cur == |s.accepted| - 1 && s.part == |s.accepted[s.cur]|)
  }

  ghost predicate Inv(s: State, copy: bool) {
    && WellFormed(s) && Accounted(s)
    && (if copy then Announced(s) else s.writeFlag && s.posts == 0)
  }

  // The payload at the cursor is not wholly acknowledged, so the ack loop
  // cannot free it.
  ghost predicate CursorSafe(s: State) {
    s.cur < |s.accepted| ==> Total(s.accepted, s.cur + 1) > s.acked
  }

  // Between two calls the ack loop is finished.
  ghost predicate Settled(s: State) {
    s.carry == 0 && (s.fired < |s.accepted| ==> s.headTot < |s.accepted[s.fired]|)
  }

  // ----- steps -----

  datatype Step =
    | Accept(data: seq<byte>)   // espconn_sent queues a payload
    | Write(n: nat)             // tcp_write takes n bytes of it
    | Advance                   // ptail moves to the next payload
    | Ack(len: nat)             // the peer acknowledges
    | AddCarry                  // the loop credits the head
    | FreeHead                  // the head is complete: free it, call back

  // When the code takes a step.
  ghost predicate Enabled(s: State, e: Step)
    requires WellFormed(s)
  {
    match e
    case Accept(d) => 1 <= |d| < TWO_16 && s.writeFlag
    case Write(n) => s.cur < |s.accepted| && 1 <= n <= |s.accepted[s.cur]| - s.part
    case Advance => s.cur < |s.accepted| && s.part == |s.accepted[s.cur]|
    case Ack(len) => 1 <= len && Settled(s) && s.acked + len <= |Written(s)|
    case AddCarry => s.fired < |s.accepted| && s.headTot == 0
    case FreeHead => s.fired < |s.accepted| && s.carry == 0 && s.headTot >= |s.accepted[s.fired]|
  }

  // len bytes acknowledged, credited to the head.
  function Credited(s: State, len: nat): State {
    s.(headTot := s.headTot + len, acked := s.acked + len)
  }

  // The carry is credited to the head.
  function Carried(s: State): State {
    s.(headTot := s.carry, carry := 0)
  }

  // The head is completed; what it does not need is carried on.
  function Freed(s: State): State
    requires s.fired < |s.accepted| && s.headTot >= |s.accepted[s.fired]|
  {
    s.(fired := s.fired + 1, carry := s.headTot - |s.accepted[s.fired]|, headTot := 0)
  }

  function Apply(s: State, e: Step, copy: bool): State
    requires e.Write? ==> s.cur < |s.accepted|
    requires e.FreeHead? ==> s.fired < |s.accepted| && s.headTot >= |s.accepted[s.fired]|
  {
    match e
    case Accept(d) => s.(accepted := s.accepted + [d], writeFlag := s.writeFlag && !copy)
    case Write(n) =>
      var done := copy && s.part + n == |s.accepted[s.cur]|;
      s.(part := s.part + n, writeFlag := s.writeFlag || done, posts := s.posts + if done then 1 else 0)
    case Advance => s.(cur := s.cur + 1, part := 0)
    case Ack(len) => Credited(s, len)
    case AddCarry => Carried(s)
    case FreeHead => Freed(s)
  }

  // ----- concatenation -----

  lemma {:induction false} CatOfExtended(a: seq<seq<byte>>, d: seq<byte>, k: nat)
    requires k <= |a|
    ensures Cat(a + [d], k) == Cat(a, k) && Total(a + [d], k) == Total(a, k)
  {
    if k > 0 {
      CatOfExtended(a, d, k - 1);
    }
  }

  lemma {:induction false} TotalMonotone(a: seq<seq<byte>>, i: nat, j: nat)
    requires i <= j <= |a|
    ensures Total(a, i) <= Total(a, j)
    ensures Cat(a, i) <= Cat(a, j)
    decreases j - i
  {
    if i < j {
      TotalMonotone(a, i, j - 1);
      assert Cat(a, j) == Cat(a, j - 1) + a[j - 1];
    }
  }

  lemma WrittenLength(s: State)
    requires WellFormed(s)
    ensures |Written(s)| == Total(s.accepted, s.cur) + s.part
  {}

  // ----- every step keeps the invariant -----

  lemma AcceptKeeps(s: State, d: seq<byte>, copy: bool)
    requires Inv(s, copy) && CursorSafe(s) && Enabled(s, Accept(d))
    ensures var t := Apply(s, Accept(d), copy);
            Inv(t, copy) && CursorSafe(t) && Written(t) == Written(s)
  {
    var a, b := s.accepted, s.accepted + [d];
    CatOfExtended(a, d, s.cur);
    CatOfExtended(a, d, s.fired);
    WrittenLength(s);
    if s.cur < |a| {
      CatOfExtended(a, d, s.cur + 1);
    }
  }

  lemma WriteKeeps(s: State, n: nat, copy: bool)
    requires Inv(s, copy) && Enabled(s, Write(n))
    ensures var t := Apply(s, Write(n), copy);
            && Inv(t, copy) && (CursorSafe(s) ==> CursorSafe(t))
            && Written(t) == Written(s) + s.accepted[s.cur][s.part..s.part + n]
  {
    var d := s.accepted[s.cur];
    assert d[..s.part + n] == d[..s.part] + d[s.part..s.part + n];
  }

  lemma AdvanceKeeps(s: State, copy: bool)
    requires Inv(s, copy) && Enabled(s, Advance)
    ensures var t := Apply(s, Advance, copy);
            && Inv(t, copy) && Written(t) == Written(s) && (CursorSafe(s) ==> CursorSafe(t))
  {
    var d := s.accepted[s.cur];
    assert d[..s.part] == d;
    var t := Apply(s, Advance, copy);
    if t.cur < |t.accepted| {
      assert t.accepted[t.cur][..t.part] == [];
    }
  }

  lemma AckKeeps(s: State, len: nat, copy: bool)
    requires Inv(s, copy) && Enabled(s, Ack(len))
    ensures s.fired < |s.accepted|
    ensures var t := Apply(s, Ack(len), copy);
            Inv(t, copy) && Written(t) == Written(s)
  {
    WrittenLength(s);
  }

  lemma AddCarryKeeps(s: State, copy: bool)
    requires Inv(s, copy) && Enabled(s, AddCarry)
    ensures var t := Apply(s, AddCarry, copy);
            Inv(t, copy) && Written(t) == Written(s) && (CursorSafe(s) ==> CursorSafe(t))
  {}

  lemma FreeHeadKeeps(s: State, copy: bool)
    requires Inv(s, copy) && CursorSafe(s) && Enabled(s, FreeHead)
    ensures s.fired < s.cur
    ensures var t := Apply(s, FreeHead, copy);
            Inv(t, copy) && Written(t) == Written(s) && CursorSafe(t)
  {
    assert Total(s.accepted, s.fired + 1) == Total(s.accepted, s.fired) + |s.accepted[s.fired]|;
  }

  // The loop ends with nothing carried over when the queue runs empty.
  lemma EmptyQueueHasNoCarry(s: State, copy: bool)
    requires Inv(s, copy) && s.fired == |s.accepted|
    ensures s.carry == 0
  {
    WrittenLength(s);
  }

  // ----- the main results -----

  // STREAM. What went to tcp_write is a prefix of the accepted payloads in
  // acceptance order: no byte skipped, none repeated.
  lemma WrittenIsPrefix(s: State)
    requires WellFormed(s)
    ensures Written(s) <= Cat(s.accepted, |s.accepted|)
  {
    if s.cur < |s.accepted| {
      TotalMonotone(s.accepted, s.cur + 1, |s.accepted|);
      assert Cat(s.accepted, s.cur + 1) == Cat(s.accepted, s.cur) + s.accepted[s.cur];
      assert Written(s) <= Cat(s.accepted, s.cur + 1);
    } else {
      assert Written(s) == Cat(s.accepted, s.cur);
    }
  }

  lemma {:induction false} CompletedIs(a: seq<seq<byte>>, n: nat, k: nat)
    requires forall i | 0 <= i < |a| :: |a[i]| >= 1
    requires k <= |a| && Total(a, k) <= n && (k < |a| ==> Total(a, k + 1) > n)
    ensures Completed(a, n) == k
  {
    if k < |a| {
      TotalMonotone(a, k + 1, |a|);
      var b, d := a[..|a| - 1], a[|a| - 1];
      assert a == b + [d];
      CatOfExtended(b, d, k);
      if k < |b| {
        CatOfExtended(b, d, k + 1);
      }
      CompletedIs(b, n, k);
    }
  }

  // EXACT ACCOUNTING. Once an acknowledgement is worked off, the callbacks fired
  // are exactly the payloads whose cumulative length is acknowledged.
  lemma FiredIsCompleted(s: State, copy: bool)
    requires Inv(s, copy) && Settled(s)
    ensures s.fired == Completed(s.accepted, s.acked)
  {
    CompletedIs(s.accepted, s.acked, s.fired);
  }

  // ONE ANNOUNCEMENT EACH. With the copy option, SIG_ESPCONN_WRITE was posted
  // once for every payload wholly handed to tcp_write, and for no other.
  lemma PostsMatchWritten(s: State)
    requires Inv(s, true)
    ensures s.posts == Completed(s.accepted, |Written(s)|)
    ensures s.writeFlag <==> Written(s) == Cat(s.accepted, |s.accepted|)
  {
    WrittenLength(s);
    var n := |s.accepted|;
    if AllSent(s) {
      if s.cur < n {
        assert s.accepted[s.cur][..s.part] == s.accepted[s.cur];
      }
      CompletedIs(s.accepted, |Written(s)|, n);
    } else {
      if s.cur + 2 == n {
        assert Total(s.accepted, s.cur + 1) == Total(s.accepted, s.cur) + s.part;
      }
      CompletedIs(s.accepted, |Written(s)|, n - 1);
    }
  }

  // ----- runs -----

  // A run in which, after an acknowledgement, the cursor is moved off a wholly
  // acknowledged payload before the head is completed or a payload accepted.
  ghost predicate Legal(s: State, steps: seq<Step>, copy: bool)
    decreases |steps|
  {
    steps != [] ==>
      && WellFormed(s) && Enabled(s, steps[0])
      && (steps[0].Accept? || steps[0].FreeHead? ==> CursorSafe(s))
      && Legal(Apply(s, steps[0], copy), steps[1..], copy)
  }

  function Run(s: State, steps: seq<Step>, copy: bool): State
    requires Legal(s, steps, copy)
    decreases |steps|
  {
    if |steps| == 0 then s else Run(Apply(s, steps[0], copy), steps[1..], copy)
  }

  lemma StepKeeps(s: State, e: Step, copy: bool)
    requires Inv(s, copy) && Enabled(s, e) && (e.Accept? || e.FreeHead? ==> CursorSafe(s))
    ensures Inv(Apply(s, e, copy), copy)
    ensures Written(s) <= Written(Apply(s, e, copy))
  {
    match e
    case Accept(d) => AcceptKeeps(s, d, copy);
    case Write(n) => WriteKeeps(s, n, copy);
    case Advance => AdvanceKeeps(s, copy);
    case Ack(len) => AckKeeps(s, len, copy);
    case AddCarry => AddCarryKeeps(s, copy);
    case FreeHead => FreeHeadKeeps(s, copy);
  }

  // Over every run the invariant holds, what was written stays written, and
  // it is a prefix of everything accepted by the end.
  lemma {:induction false} RunKeeps(s: State, steps: seq<Step>, copy: bool)
    requires Inv(s, copy) && Legal(s, steps, copy)
    ensures Inv(Run(s, steps, copy), copy)
    ensures Written(s) <= Written(Run(s, steps, copy))
    decreases |steps|
  {
    if steps != [] {
      StepKeeps(s, steps[0], copy);
      RunKeeps(Apply(s, steps[0], copy), steps[1..], copy);
    }
  }

  // In every run written is a prefix of accepted at every moment, and whenever
  // the ack loop is through, the callbacks match the acknowledgements.
  lemma RunIsSafe(s: State, steps: seq<Step>, copy: bool)
    requires Inv(s, copy) && Legal(s, steps, copy)
    ensures var t := Run(s, steps, copy);
            && Inv(t, copy) && Written(t) <= Cat(t.accepted, |t.accepted|)
            && (Settled(t) ==> t.fired == Completed(t.accepted, t.acked))
  {
    RunKeeps(s, steps, copy);
    var t := Run(s, steps, copy);
    WrittenIsPrefix(t);
    if Settled(t) {
      FiredIsCompleted(t, copy);
    }
  }

  lemma InitialHolds(s: State, copy: bool)
    requires Initial(s)
    ensures Inv(s, copy) && CursorSafe(s) && Settled(s) && Written(s) == []
  {}

  // ----- the cursor and the ack loop -----

  // The rounds of the acknowledgement loop when nothing is written meanwhile.
  function AckLoop(s: State): State
    decreases |s.accepted| - s.fired
  {
    if s.fired >= |s.accepted| then s
    else
      var t := Round(s);
      if t.headTot >= |t.accepted[t.fired]| then AckLoop(Freed(t)) else t
  }

  // The accounts of the loop, whatever the cursor.
  ghost predicate Ledger(s: State) {
    && (forall i | 0 <= i < |s.accepted| :: |s.accepted[i]| >= 1)
    && s.fired <= |s.accepted| && (s.fired == |s.accepted| ==> s.headTot == 0)
    && Total(s.accepted, s.fired) + s.carry + s.headTot == s.acked
    && (s.carry == 0 || s.headTot == 0) && s.acked <= Total(s.accepted, |s.accepted|)
  }

  function Round(s: State): State {
    if s.headTot == 0 then Carried(s) else s
  }

  lemma RoundLedger(s: State)
    requires Ledger(s) && s.fired < |s.accepted|
    ensures var t := Round(s);
            && Ledger(t) && t.carry == 0 && t.accepted == s.accepted && t.fired == s.fired
            && t.acked == s.acked && t.cur == s.cur
  {}

  lemma FreedLedger(t: State)
    requires Ledger(t) && t.carry == 0 && t.fired < |t.accepted| && t.headTot >= |t.accepted[t.fired]|
    ensures Ledger(Freed(t))
  {
    assert Total(t.accepted, t.fired + 1) == Total(t.accepted, t.fired) + |t.accepted[t.fired]|;
  }

  // f is how many payloads fit whole into the acknowledged bytes.
  ghost predicate Through(s: State, f: nat) {
    && f <= |s.accepted| && Total(s.accepted, f) <= s.acked
    && (f < |s.accepted| ==> Total(s.accepted, f + 1) > s.acked)
  }

  lemma {:induction false} AckLoopFrees(s: State)
    requires Ledger(s)
    ensures AckLoop(s).accepted == s.accepted && AckLoop(s).cur == s.cur && Through(s, AckLoop(s).fired)
    decreases |s.accepted| - s.fired
  {
    if s.fired < |s.accepted| {
      var t := Round(s);
      RoundLedger(s);
      if t.headTot >= |t.accepted[t.fired]| {
        FreedLedger(t);
        AckLoopFrees(Freed(t));
      }
    }
  }

  // The acknowledgement covers all that is written while ptail still stands on
  // its last, wholly sent payload.
  ghost predicate Endangers(s: State, len: nat)
    requires WellFormed(s)
  {
    s.cur < |s.accepted| && s.part == |s.accepted[s.cur]| && s.acked + len == |Written(s)|
  }

  lemma CursorLostIff(s: State, len: nat, copy: bool)
    requires Inv(s, copy) && CursorSafe(s) && Enabled(s, Ack(len))
    ensures !CursorSafe(Credited(s, len)) <==> Endangers(s, len)
  {
    WrittenLength(s);
  }

  lemma CreditedLedger(s: State, len: nat, copy: bool)
    requires Inv(s, copy) && Enabled(s, Ack(len))
    ensures Ledger(Credited(s, len))
  {
    WrittenIsPrefix(s);
    AckKeeps(s, len, copy);
  }

  lemma ThroughCursorIff(s: State, f: nat)
    requires Through(s, f) && s.cur <= |s.accepted|
    ensures f > s.cur <==> !CursorSafe(s)
  {
    if f > s.cur {
      TotalMonotone(s.accepted, s.cur + 1, f);
    } else if s.cur < |s.accepted| {
      TotalMonotone(s.accepted, f + 1, s.cur + 1);
    }
  }

  // An acknowledgement that finds the write loop blocked frees the payload at
  // ptail, and leaves ptail behind on it, exactly then.
  lemma AckEndangersCursorIff(s: State, len: nat, copy: bool)
    requires Inv(s, copy) && CursorSafe(s) && Enabled(s, Ack(len))
    ensures AckLoop(Credited(s, len)).fired > s.cur <==> Endangers(s, len)
  {
    CreditedLedger(s, len, copy);
    AckLoopFrees(Credited(s, len));
    ThroughCursorIff(Credited(s, len), AckLoop(Credited(s, len)).fired);
    CursorLostIff(s, len, copy);
  }

  // That can happen: one payload, sent and acknowledged, with ptail left behind.
  lemma CursorCanBeEndangered(d: seq<byte>)
    requires 1 <= |d| < TWO_16
    ensures var s := State([d], 0, |d|, 0, 0, 0, 0, true, 0);
            && Inv(s, false) && CursorSafe(s) && Settled(s) && Enabled(s, Ack(|d|))
            && Endangers(s, |d|) && AckLoop(Credited(s, |d|)).fired > s.cur
  {
    var s := State([d], 0, |d|, 0, 0, 0, 0, true, 0);
    assert Total(s.accepted, 1) == Total(s.accepted, 0) + |s.accepted[0]|;
    WrittenLength(s);
    AckEndangersCursorIff(s, |d|, false);
  }
}
