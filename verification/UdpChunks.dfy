// Sending over UDP: a payload is cut into datagrams by two functions calling each
// other through the connection's fields, and the application is told at the end.

module UdpChunks {
  import opened Machine
  import opened Chains

  const ESPCONN_OK := 0
  const ESPCONN_MEM := -1
  const ESPCONN_RTE := -4
  const ESPCONN_ARG := -12
  const ESPCONN_IF := -14

  const MAX_DATA := 1472          // IP_FRAG_MAX_MTU - 20 - 8

  // What one datagram meets: whether pbuf_alloc succeeds, whether it goes out on
  // both interfaces and the copy for the station then succeeds, what udp_send or
  // udp_sendto returns, and whether the pbuf still has a reference then.
  datatype Net = Net(memory: bool, dual: bool, copied: bool, err: int, referenced: bool)

  predicate Goes(net: Net) {
    net.memory && (net.dual ==> net.copied)
  }

  // The two entry points, which differ in the lwIP function they call.
  datatype Opt = Send | SendTo

  // ----- what is sent -----

  function Size(data: seq<byte>): (n: nat)
    ensures n <= |data| && n <= MAX_DATA && (|data| > 0 ==> n > 0)
  {
    if MAX_DATA < |data| then MAX_DATA else |data|
  }

  // The datagrams handed to lwIP for the route, the k-th meeting net(k).
  function Datagrams(data: seq<byte>, net: nat -> Net, k: nat): seq<seq<byte>>
    decreases |data|
  {
    if |data| == 0 || !Goes(net(k)) then []
    else
      var n := Size(data);
      [data[..n]] + if net(k).referenced then Datagrams(data[n..], net, k + 1) else []
  }

  // The copies sent before them through the station interface.
  function Copies(data: seq<byte>, net: nat -> Net, k: nat): seq<seq<byte>>
    decreases |data|
  {
    if |data| == 0 || !Goes(net(k)) then []
    else
      var n := Size(data);
      (if net(k).dual then [data[..n]] else [])
      + if net(k).referenced then Copies(data[n..], net, k + 1) else []
  }

  // Whether the sent callback runs.
  predicate Tells(data: seq<byte>, net: nat -> Net, k: nat)
    decreases |data|
  {
    data != [] && Goes(net(k)) && net(k).referenced
    && if Size(data) == |data| then net(k).err == 0 else Tells(data[Size(data)..], net, k + 1)
  }

  // Whether it runs when rest is left after a datagram that returned err.
  predicate Finishes(rest: seq<byte>, err: int, net: nat -> Net, k: nat) {
    if |rest| == 0 then err == 0 else Tells(rest, net, k)
  }

  // What the caller sees: how the first datagram fared.
  function Reply(data: seq<byte>, net: Net): int {
    if |data| == 0 then ESPCONN_ARG
    else if !net.memory then ESPCONN_MEM
    else if net.dual && !net.copied then ESPCONN_ARG
    else if !net.referenced then ESPCONN_RTE
    else if net.err > 0 then ESPCONN_IF
    else net.err
  }

  // How many datagrams a payload needs.
  function Needed(n: nat): nat {
    (n + MAX_DATA - 1) / MAX_DATA
  }

  // No datagram of n from the k-th on lacks memory or its copy, nor any but the
  // last its reference.
  ghost predicate AllSent(net: nat -> Net, k: nat, n: nat) {
    forall j | k <= j < k + n :: Goes(net(j)) && (j + 1 < k + n ==> net(j).referenced)
  }

  lemma NeededStep(n: nat)
    requires n > 0
    ensures Needed(n) == 1 + Needed(if MAX_DATA < n then n - MAX_DATA else 0)
  {}

  // The datagrams are at most as many as needed, all but the last of full size.
  lemma {:induction false} Sizes(data: seq<byte>, net: nat -> Net, k: nat)
    ensures var ds := Datagrams(data, net, k);
            && |ds| <= Needed(|data|)
            && (AllSent(net, k, Needed(|data|)) ==> |ds| == Needed(|data|))
            && (forall i | 0 <= i < |ds| :: 1 <= |ds[i]| <= 1472)
            && (forall i | 0 <= i < |ds| :: i + 1 < Needed(|data|) ==> |ds[i]| == 1472)
    decreases |data|
  {
    if data != [] {
      NeededStep(|data|);
      if Goes(net(k)) && net(k).referenced {
        Sizes(data[Size(data)..], net, k + 1);
      }
    }
  }

  // How many datagrams there are: they stop at the first loss and not before.
  lemma {:induction false} StopsAtFirstLoss(data: seq<byte>, net: nat -> Net, k: nat)
    ensures var n := |Datagrams(data, net, k)|;
            && n <= Needed(|data|)
            && (forall j | k <= j < k + n :: Goes(net(j)) && (j + 1 < k + n ==> net(j).referenced))
            && (n < Needed(|data|) ==> (n > 0 && !net(k + n - 1).referenced) || !Goes(net(k + n)))
    decreases |data|
  {
    if data != [] {
      NeededStep(|data|);
      if Goes(net(k)) && net(k).referenced {
        StopsAtFirstLoss(data[Size(data)..], net, k + 1);
      }
    }
  }

  // The datagrams that also go out through the station interface.
  function Doubled(ds: seq<seq<byte>>, net: nat -> Net, k: nat): seq<seq<byte>> {
    if |ds| == 0 then []
    else (if net(k).dual then [ds[0]] else []) + Doubled(ds[1..], net, k + 1)
  }

  lemma {:induction false} CopiesAreDoubled(data: seq<byte>, net: nat -> Net, k: nat)
    ensures Copies(data, net, k) == Doubled(Datagrams(data, net, k), net, k)
    decreases |data|
  {
    if |data| > 0 && Goes(net(k)) {
      var n := Size(data);
      var rest := if net(k).referenced then Datagrams(data[n..], net, k + 1) else [];
      assert Datagrams(data, net, k)[1..] == rest;
      if net(k).referenced {
        CopiesAreDoubled(data[n..], net, k + 1);
      }
    }
  }

  // WHICH LOSS GIVES WHICH CODE: nothing to send or no copy ARG, no memory MEM, a
  // pbuf without a reference RTE, a positive answer of lwIP IF, and any other the
  // answer itself.
  lemma ReplyMeans(data: seq<byte>, n: Net)
    ensures |data| == 0 ==> Reply(data, n) == -12
    ensures |data| > 0 && !n.memory ==> Reply(data, n) == -1
    ensures |data| > 0 && n.memory && n.dual && !n.copied ==> Reply(data, n) == -12
    ensures |data| > 0 && Goes(n) && !n.referenced ==> Reply(data, n) == -4
    ensures |data| > 0 && Goes(n) && n.referenced ==> Reply(data, n) == if n.err > 0 then -14 else n.err
  {}

  lemma FirstPiece(data: seq<byte>, net: nat -> Net, k: nat)
    requires data != [] && Goes(net(k))
    ensures var n := Size(data);
            var rest := if net(k).referenced then Datagrams(data[n..], net, k + 1) else [];
            Flatten(Datagrams(data, net, k)) == data[..n] + Flatten(rest)
  {
    var n := Size(data);
    FlattenFront(data[..n], if net(k).referenced then Datagrams(data[n..], net, k + 1) else []);
  }

  lemma SplitAt(data: seq<byte>, n: nat, tail: seq<byte>)
    requires n <= |data|
    ensures data[..n] + tail <= data <==> tail <= data[n..]
    ensures data[..n] + tail == data <==> tail == data[n..]
  {
    var x := data[..n] + tail;
    assert tail == x[n..];
    assert data == data[..n] + data[n..];
  }

  // They are consecutive pieces of the payload, and the whole payload exactly
  // when none is lost.
  lemma {:induction false} Pieces(data: seq<byte>, net: nat -> Net, k: nat)
    ensures var sent := Flatten(Datagrams(data, net, k));
            && sent <= data
            && (sent == data <==> AllSent(net, k, Needed(|data|)))
    decreases |data|
  {
    if data != [] {
      NeededStep(|data|);
      if Goes(net(k)) {
        var n := Size(data);
        FirstPiece(data, net, k);
        SplitAt(data, n, Flatten(if net(k).referenced then Datagrams(data[n..], net, k + 1) else []));
        if net(k).referenced {
          Pieces(data[n..], net, k + 1);
        }
      }
    }
  }

  // The callback runs exactly when every datagram went out and the last one was
  // sent without error. Errors before the last do not matter.
  lemma {:induction false} TellsIff(data: seq<byte>, net: nat -> Net, k: nat)
    requires data != []
    ensures var last := k + Needed(|data|) - 1;
            last >= 0 && (Tells(data, net, k) <==>
              AllSent(net, k, Needed(|data|)) && net(last).referenced && net(last).err == 0)
    decreases |data|
  {
    NeededStep(|data|);
    if Size(data) < |data| {
      NeededStep(|data| - MAX_DATA);
      TellsIff(data[Size(data)..], net, k + 1);
    }
  }

  // With nothing lost: the payload goes out whole, in as many datagrams as needed;
  // the caller sees the first error while the callback depends on the last.
  lemma WithoutLoss(data: seq<byte>, net: nat -> Net, k: nat)
    requires data != [] && forall j: nat :: Goes(net(j)) && net(j).referenced
    ensures Flatten(Datagrams(data, net, k)) == data && |Datagrams(data, net, k)| == Needed(|data|)
    ensures var last := k + Needed(|data|) - 1;
            last >= 0 && (Tells(data, net, k) <==> net(last).err == 0)
    ensures Reply(data, net(k)) == ESPCONN_OK <==> net(k).err == 0
  {
    Sizes(data, net, k);
    Pieces(data, net, k);
    TellsIff(data, net, k);
  }

  // Where every datagram goes out on both interfaces, both carry the same.
  lemma {:induction false} BothAlike(data: seq<byte>, net: nat -> Net, k: nat)
    ensures (forall j: nat :: net(j).dual) ==> Copies(data, net, k) == Datagrams(data, net, k)
    ensures (forall j: nat :: !net(j).dual) ==> Copies(data, net, k) == []
    decreases |data|
  {
    if |data| > 0 && Goes(net(k)) && net(k).referenced {
      BothAlike(data[Size(data)..], net, k + 1);
    }
  }

  lemma OneSent(data: seq<byte>, net: nat -> Net, k: nat, w: seq<seq<byte>>, b: seq<seq<byte>>)
    requires |data| > 0 && Goes(net(k))
    ensures var n, on := Size(data), net(k).referenced;
            var rest := data[n..];
            && w + Datagrams(data, net, k) == (w + [data[..n]]) + (if on then Datagrams(rest, net, k + 1) else [])
            && b + Copies(data, net, k)
               == (b + if net(k).dual then [data[..n]] else []) + (if on then Copies(rest, net, k + 1) else [])
            && (Tells(data, net, k) <==> on && Finishes(rest, net(k).err, net, k + 1))
  {}

  class Connection {
    var ptrbuf: seq<byte>           // what is left of the payload
    var cntr: uint16
    var err: int
    var told: nat                   // sent callbacks
    ghost var wire: seq<seq<byte>>  // datagrams handed to lwIP for the route
    ghost var both: seq<seq<byte>>  // copies for the station interface

    // The copy into the pbuf.
    method Fill(psent: seq<byte>, datalen: nat) returns (p: array<byte>)
      requires datalen <= |psent|
      ensures fresh(p) && p[..] == psent[..datalen]
    {
      p := new byte[datalen](_ => 0);
      var cnt := 0;
      while cnt < datalen
        invariant cnt <= datalen && p[..cnt] == psent[..cnt]
      {
        p[cnt] := psent[cnt];
        cnt := cnt + 1;
      }
    }

    // One datagram, and before it the copy for the other interface.
    method Emit(psent: seq<byte>, datalen: nat, n: Net) returns (goes: bool)
      requires datalen <= |psent| && n.memory
      modifies `wire, `both
      ensures goes == Goes(n)
      ensures wire == old(wire) + if goes then [psent[..datalen]] else []
      ensures both == old(both) + if goes && n.dual then [psent[..datalen]] else []
    {
      var p := Fill(psent, datalen);
      if n.dual {
        if !n.copied {
          return false;
        }
        both := both + [p[..]];
      }
      wire := wire + [p[..]];
      goes := true;
    }

    // espconn_udp_sent and espconn_udp_sendto
    method UdpSent(opt: Opt, psent: seq<byte>, net: nat -> Net, k: nat) returns (r: int)
      requires |psent| < TWO_16
      modifies this
      ensures wire == old(wire) + Datagrams(psent, net, k)
      ensures both == old(both) + Copies(psent, net, k)
      ensures told == old(told) + if Tells(psent, net, k) then 1 else 0
      ensures r == Reply(psent, net(k))
      decreases |psent|, 1
    {
      if |psent| == 0 {
        return ESPCONN_ARG;
      }
      var datalen := if MAX_DATA < |psent| then MAX_DATA else |psent|;
      if !net(k).memory {
        return ESPCONN_MEM;
      }
      var goes := Emit(psent, datalen, net(k));
      if !goes {
        return ESPCONN_ARG;
      }
      OneSent(psent, net, k, old(wire), old(both));
      r := Continue(opt, psent, datalen, net, k);
    }

    // The rest after one datagram.
    method Continue(opt: Opt, psent: seq<byte>, datalen: nat, net: nat -> Net, k: nat) returns (r: int)
      requires 0 < datalen <= |psent| < TWO_16
      modifies this
      ensures var rest, on := psent[datalen..], net(k).referenced;
              && wire == old(wire) + (if on then Datagrams(rest, net, k + 1) else [])
              && both == old(both) + (if on then Copies(rest, net, k + 1) else [])
              && told == old(told) + if on && Finishes(rest, net(k).err, net, k + 1) then 1 else 0
      ensures r == if !net(k).referenced then ESPCONN_RTE else if net(k).err > 0 then ESPCONN_IF else net(k).err
      decreases |psent|, 0
    {
      if !net(k).referenced {
        return ESPCONN_RTE;
      }
      ptrbuf, cntr, err := psent[datalen..], |psent| - datalen, net(k).err;
      DataSent(opt, net, k + 1);
      r := if net(k).err > 0 then ESPCONN_IF else net(k).err;
    }

    // espconn_data_sent
    method DataSent(opt: Opt, net: nat -> Net, k: nat)
      requires cntr == |ptrbuf|
      modifies this
      ensures wire == old(wire) + Datagrams(old(ptrbuf), net, k)
      ensures both == old(both) + Copies(old(ptrbuf), net, k)
      ensures told == old(told) + if Finishes(old(ptrbuf), old(err), net, k) then 1 else 0
      decreases |ptrbuf|, 2
    {
      if cntr == 0 {
        if err == 0 {
          told := told + 1;
        }
      } else {
        var r := UdpSent(opt, ptrbuf, net, k);
      }
    }
  }
}
