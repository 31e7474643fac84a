// The millisecond clock: the 32-bit microsecond counter extended by a count of its
// wraps, which a timer tick keeps up to date.

module Clock {
  import opened Machine

  // The counter's reading when t microseconds have really passed.
  function Micros(t: nat): uint32 {
    t % 0x1_0000_0000
  }

  // ----- what the wrap count counts -----

  // The time of the latest tick; before the first the state is that of time 0.
  function Latest(ticks: seq<nat>): nat {
    if |ticks| == 0 then 0 else ticks[|ticks| - 1]
  }

  // How often a tick saw the counter go down.
  function Drops(ticks: seq<nat>): nat {
    if |ticks| == 0 then 0
    else
      var before := ticks[..|ticks| - 1];
      Drops(before) + if Micros(Latest(ticks)) < Micros(Latest(before)) then 1 else 0
  }

  predicate InOrder(ticks: seq<nat>) {
    forall i, j | 0 <= i <= j < |ticks| :: ticks[i] <= ticks[j]
  }

  function Gap(ticks: seq<nat>, i: nat): int
    requires i < |ticks|
  {
    ticks[i] as int - if i == 0 then 0 else ticks[i - 1]
  }

  lemma OneTick(a: nat, b: nat)
    requires a <= b
    ensures var drop := if Micros(b) < Micros(a) then 1 else 0;
            && b / 0x1_0000_0000 >= a / 0x1_0000_0000 + drop
            && (b / 0x1_0000_0000 == a / 0x1_0000_0000 + drop <==> b - a < TWO_32)
  {}

  // The count never exceeds the true number of wraps, and it is the true number
  // exactly when no two ticks, nor the start and the first, are a full counter
  // period apart.
  lemma {:induction false} DropsAreWrapsIff(ticks: seq<nat>)
    requires InOrder(ticks)
    ensures Drops(ticks) <= Latest(ticks) / 0x1_0000_0000
    ensures Drops(ticks) == Latest(ticks) / 0x1_0000_0000 <==>
              forall i | 0 <= i < |ticks| :: Gap(ticks, i) < TWO_32
  {
    if ticks != [] {
      var n := |ticks| - 1;
      var before := ticks[..n];
      DropsAreWrapsIff(before);
      assert Latest(before) == if n == 0 then 0 else ticks[n - 1];
      OneTick(Latest(before), ticks[n]);
      assert Gap(ticks, n) == ticks[n] - Latest(before);
      assert forall i | 0 <= i < n :: Gap(ticks, i) == Gap(before, i);
    }
  }

  // ----- the milliseconds -----

  // What millis computes before it is cut to 32 bits, from c wraps and reading m.
  function Unreduced(c: nat, m: nat): nat {
    c * 4294967 + m / 1000
  }

  // With the wraps counted right, the clock trails the true milliseconds by what
  // dropping 0.296 ms in every wrap loses, and it never runs backwards.
  lemma TrailsBy(t: nat)
    ensures var c, m := t / 0x1_0000_0000, t % 0x1_0000_0000;
            Unreduced(c, m) == t / 1000 - ((296 * c + m) / 1000 - m / 1000)
  {
    var c, m := t / 0x1_0000_0000, t % 0x1_0000_0000;
    assert t == 1000 * (4294967 * c) + (296 * c + m);
  }

  lemma CountedRight(ticks: seq<nat>)
    requires InOrder(ticks)
    ensures var t := Latest(ticks);
            (forall i | 0 <= i < |ticks| :: Gap(ticks, i) < TWO_32) ==>
              var c, m := t / 0x1_0000_0000, t % 0x1_0000_0000;
              Unreduced(Drops(ticks), Micros(t)) == t / 1000 - ((296 * c + m) / 1000 - m / 1000)
  {
    DropsAreWrapsIff(ticks);
    TrailsBy(Latest(ticks));
  }

  lemma Monotone(t: nat, u: nat)
    requires t <= u
    ensures Unreduced(t / 0x1_0000_0000, t % 0x1_0000_0000) <= Unreduced(u / 0x1_0000_0000, u % 0x1_0000_0000)
  {
    var c, d := t / 0x1_0000_0000, u / 0x1_0000_0000;
    assert c <= d;
    if c < d {
      assert c * 4294967 + 4294967 <= d * 4294967;
    }
  }

  // ----- the code -----

  // The 32-bit arithmetic of millis: d is the wrap the tick has not seen yet.
  function Computed(count: uint32, d: nat, m: uint32): uint32 {
    var c := (count + d) % 0x1_0000_0000;
    (c * 4294967 + m / 1000) % 0x1_0000_0000
  }

  lemma ComputedIs(drops: nat, d: nat, m: uint32)
    ensures Computed(drops % 0x1_0000_0000, d, m) == Unreduced(drops + d, m) % 0x1_0000_0000
  {
    var q, count := drops / 0x1_0000_0000, drops % 0x1_0000_0000;
    assert drops + d == (count + d) + 0x1_0000_0000 * q;
    Multiple(count + d, q);
    ReducedSame(drops + d, m / 1000);
  }

  class Counter {
    var microsAtLastOverflowTick: uint32
    var microsOverflowCount: uint32
    ghost var ticks: seq<nat>       // the true times of the ticks

    ghost predicate Valid()
      reads this
    {
      && InOrder(ticks)
      && microsAtLastOverflowTick == Micros(Latest(ticks))
      && microsOverflowCount == Drops(ticks) % 0x1_0000_0000
    }

    constructor ()
      ensures Valid() && ticks == []
    {
      microsAtLastOverflowTick, microsOverflowCount, ticks := 0, 0, [];
    }

    // micros_overflow_tick at true time t
    method OverflowTick(ghost t: nat, m: uint32)
      requires Valid() && t >= Latest(ticks) && m == Micros(t)
      modifies this
      ensures Valid() && ticks == old(ticks) + [t]
    {
      AddTick(t);
      CountUp(Drops(ticks));
      if m < microsAtLastOverflowTick {
        microsOverflowCount := (microsOverflowCount + 1) % 0x1_0000_0000;
      }
      microsAtLastOverflowTick := m;
      ticks := ticks + [t];
    }

    // millis at true time t. Right whenever t and the ticks are less than a
    // counter period apart.
    method Millis(ghost t: nat, m: uint32) returns (ms: uint32)
      requires Valid() && t >= Latest(ticks) && m == Micros(t)
      ensures ms == Unreduced(Drops(ticks + [t]), m) % 0x1_0000_0000
      ensures (forall i | 0 <= i < |ticks| + 1 :: Gap(ticks + [t], i) < TWO_32) ==>
                var c, m := t / 0x1_0000_0000, t % 0x1_0000_0000;
                ms == (t / 1000 - ((296 * c + m) / 1000 - m / 1000)) % 0x1_0000_0000
    {
      AddTick(t);
      CountedRight(ticks + [t]);
      var d := if m < microsAtLastOverflowTick then 1 else 0;
      ms := Computed(microsOverflowCount, d, m);
      ComputedIs(Drops(ticks), d, m);
    }

    lemma AddTick(t: nat)
      requires Valid() && t >= Latest(ticks)
      ensures InOrder(ticks + [t]) && Latest(ticks + [t]) == t
      ensures Drops(ticks + [t]) == Drops(ticks) + if Micros(t) < Micros(Latest(ticks)) then 1 else 0
    {
      assert (ticks + [t])[..|ticks|] == ticks;
    }
  }

  lemma CountUp(d: nat)
    ensures (d % 0x1_0000_0000 + 1) % 0x1_0000_0000 == (d + 1) % 0x1_0000_0000
  {}

  // Cutting the count to 32 bits first makes no difference.
  lemma ReducedSame(c: nat, k: nat)
    ensures (c % 0x1_0000_0000 * 4294967 + k) % 0x1_0000_0000 == (c * 4294967 + k) % 0x1_0000_0000
  {
    var q, r := c / 0x1_0000_0000, c % 0x1_0000_0000;
    assert c * 4294967 + k == (r * 4294967 + k) + 0x1_0000_0000 * (q * 4294967);
    Multiple(r * 4294967 + k, q * 4294967);
  }

  lemma Multiple(x: nat, y: nat)
    ensures (x + 0x1_0000_0000 * y) % 0x1_0000_0000 == x % 0x1_0000_0000
  {}
}
