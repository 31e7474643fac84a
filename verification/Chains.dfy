// pbuf chains: a packet is a list of segments, and means their concatenation.

module Chains {
  import opened Machine

  // A chain has at least one segment.
  type Chain = c: seq<seq<byte>> | |c| >= 1 witness [[]]

  function Flatten(chain: seq<seq<byte>>): seq<byte> {
    if |chain| == 0 then [] else Flatten(chain[..|chain| - 1]) + chain[|chain| - 1]
  }

  lemma FlattenStep(chain: seq<seq<byte>>, i: nat)
    requires i < |chain|
    ensures Flatten(chain[..i + 1]) == Flatten(chain[..i]) + chain[i]
    ensures |Flatten(chain[..i + 1])| <= |Flatten(chain)|
    decreases |chain| - i
  {
    assert chain[..i + 1][..i] == chain[..i];
    if i + 1 < |chain| {
      FlattenStep(chain, i + 1);
    } else {
      assert chain[..i + 1] == chain;
    }
  }

  lemma FlattenOne(chain: seq<seq<byte>>)
    requires |chain| == 1
    ensures chain == [Flatten(chain)]
  {
    assert chain[..0] == [] && Flatten(chain) == Flatten(chain[..0]) + chain[0];
    assert [] + chain[0] == chain[0];
  }

  lemma {:induction false} FlattenFront(first: seq<byte>, rest: seq<seq<byte>>)
    ensures Flatten([first] + rest) == first + Flatten(rest)
  {
    var chain := [first] + rest;
    if rest == [] {
      FlattenOne(chain);
    } else {
      FlattenFront(first, rest[..|rest| - 1]);
      assert chain[..|chain| - 1] == [first] + rest[..|rest| - 1];
    }
  }
}
