// Singly linked lists as the source builds them: nodes joined by pnext, a head,
// and a ghost sequence of the nodes in list order.

module Lists {

  class Node<T> {
    var data: T
    var pnext: Node?<T>

    constructor (d: T)
      ensures data == d && pnext == null
    {
      data, pnext := d, null;
    }
  }

  function RemoveAt<T>(s: seq<T>, k: nat): seq<T>
    requires k < |s|
  {
    s[..k] + s[k + 1..]
  }

  function InsertAt<T>(s: seq<T>, k: nat, x: T): seq<T>
    requires k <= |s|
  {
    s[..k] + [x] + s[k..]
  }

  function NodeAt<T>(ns: seq<Node<T>>, i: nat): Node?<T> {
    if i < |ns| then ns[i] else null
  }

  // Where a node of the list stands.
  ghost function IndexOf<T>(ns: seq<Node<T>>, d: Node<T>): (k: nat)
    requires d in ns
    ensures k < |ns| && ns[k] == d
  {
    var k :| 0 <= k < |ns| && ns[k] == d;
    k
  }

  // No node occurs twice.
  ghost predicate DistinctNodes<T>(ns: seq<Node<T>>) {
    forall i | 0 <= i < |ns| :: IndexOf(ns, ns[i]) == i
  }

  // head leads through exactly the nodes ns, which are distinct, to null.
  ghost predicate Linked<T>(head: Node?<T>, ns: seq<Node<T>>)
    reads ns`pnext
  {
    && head == NodeAt(ns, 0)
    && DistinctNodes(ns)
    && forall i {:trigger ns[i].pnext} | 0 <= i < |ns| :: ns[i].pnext == NodeAt(ns, i + 1)
  }

  // The nodes carry these records.
  ghost predicate Carries<T>(ns: seq<Node<T>>, ds: seq<T>)
    reads ns`data
  {
    |ns| == |ds| && forall i | 0 <= i < |ns| :: ns[i].data == ds[i]
  }

  // ----- facts about insertion and removal, element by element -----

  lemma InsertAtElements<T>(s: seq<T>, k: nat, x: T)
    requires k <= |s|
    ensures |InsertAt(s, k, x)| == |s| + 1
    ensures forall i | 0 <= i < |s| + 1 ::
              InsertAt(s, k, x)[i] == if i < k then s[i] else if i == k then x else s[i - 1]
  {}

  lemma RemoveAtElements<T>(s: seq<T>, k: nat)
    requires k < |s|
    ensures |RemoveAt(s, k)| == |s| - 1
    ensures forall i | 0 <= i < |s| - 1 :: RemoveAt(s, k)[i] == if i < k then s[i] else s[i + 1]
  {}

  lemma InsertAtMembers<T>(s: seq<T>, k: nat, x: T)
    requires k <= |s|
    ensures forall y :: y in InsertAt(s, k, x) <==> y == x || y in s
  {
    assert s == s[..k] + s[k..];
  }

  lemma DistinctAt<T>(ns: seq<Node<T>>, i: nat, j: nat)
    requires DistinctNodes(ns) && i < |ns| && j < |ns| && ns[i] == ns[j]
    ensures i == j
  {
    assert IndexOf(ns, ns[i]) == i && IndexOf(ns, ns[j]) == j;
  }

  lemma DistinctInsert<T>(ns: seq<Node<T>>, k: nat, x: Node<T>)
    requires k <= |ns| && x !in ns && DistinctNodes(ns)
    ensures DistinctNodes(InsertAt(ns, k, x))
  {
    var r := InsertAt(ns, k, x);
    InsertAtElements(ns, k, x);
    forall i | 0 <= i < |r| ensures IndexOf(r, r[i]) == i {
      var j := IndexOf(r, r[i]);
      if i != k && j != k {
        DistinctAt(ns, if i < k then i else i - 1, if j < k then j else j - 1);
      }
    }
  }

  lemma DistinctRemove<T>(ns: seq<Node<T>>, k: nat)
    requires k < |ns| && DistinctNodes(ns)
    ensures DistinctNodes(RemoveAt(ns, k))
    ensures ns[k] !in RemoveAt(ns, k)
  {
    var r := RemoveAt(ns, k);
    RemoveAtElements(ns, k);
    forall i | 0 <= i < |r| ensures r[i] != ns[k] {
      var j := if i < k then i else i + 1;
      assert IndexOf(ns, ns[j]) == j && IndexOf(ns, ns[k]) == k;
    }
    forall i | 0 <= i < |r| ensures IndexOf(r, r[i]) == i {
      var j := IndexOf(r, r[i]);
      DistinctAt(ns, if i < k then i else i + 1, if j < k then j else j + 1);
    }
  }

  lemma LinkedInsert<T>(head: Node?<T>, ns: seq<Node<T>>, k: nat, x: Node<T>)
    requires k <= |ns| && x !in ns && DistinctNodes(ns)
    requires head == if k == 0 then x else NodeAt(ns, 0)
    requires forall j {:trigger ns[j].pnext} | 0 <= j < |ns| && j != k - 1 :: ns[j].pnext == NodeAt(ns, j + 1)
    requires k > 0 ==> ns[k - 1].pnext == x
    requires x.pnext == NodeAt(ns, k)
    ensures Linked(head, InsertAt(ns, k, x))
  {
    InsertAtElements(ns, k, x);
    DistinctInsert(ns, k, x);
  }

  lemma LinkedRemove<T>(head: Node?<T>, ns: seq<Node<T>>, k: nat)
    requires k < |ns| && DistinctNodes(ns)
    requires head == if k == 0 then NodeAt(ns, 1) else NodeAt(ns, 0)
    requires forall j {:trigger ns[j].pnext} | 0 <= j < |ns| && j != k - 1 && j != k :: ns[j].pnext == NodeAt(ns, j + 1)
    requires k > 0 ==> ns[k - 1].pnext == NodeAt(ns, k + 1)
    ensures Linked(head, RemoveAt(ns, k))
  {
    RemoveAtElements(ns, k);
    DistinctRemove(ns, k);
  }

  lemma CarriesInsert<T>(ns: seq<Node<T>>, ds: seq<T>, k: nat, x: Node<T>)
    requires Carries(ns, ds) && k <= |ns|
    ensures Carries(InsertAt(ns, k, x), InsertAt(ds, k, x.data))
  {
    InsertAtElements(ns, k, x);
    InsertAtElements(ds, k, x.data);
  }

  lemma CarriesRemove<T>(ns: seq<Node<T>>, ds: seq<T>, k: nat)
    requires Carries(ns, ds) && k < |ns|
    ensures Carries(RemoveAt(ns, k), RemoveAt(ds, k))
  {
    RemoveAtElements(ns, k);
    RemoveAtElements(ds, k);
  }

  // espconn_list_creat, espconn_pbuf_create: append at the tail.
  method Append<T>(head: Node?<T>, x: Node<T>, ghost ns: seq<Node<T>>) returns (h: Node?<T>)
    requires Linked(head, ns) && x !in ns
    modifies ns`pnext, x`pnext
    ensures Linked(h, ns + [x])
  {
    x.pnext := null;
    h := head;
    if head == null {
      h := x;
    } else {
      var p := head;
      ghost var i := 0;
      while p.pnext != null
        invariant i < |ns| && p == ns[i]
        invariant forall j {:trigger ns[j].pnext} | 0 <= j < |ns| :: ns[j].pnext == NodeAt(ns, j + 1)
        decreases |ns| - i
      {
        p := p.pnext;
        i := i + 1;
      }
      assert ns[i].pnext == NodeAt(ns, i + 1);
      p.pnext := x;
    }
    LinkedInsert(h, ns, |ns|, x);
    assert InsertAt(ns, |ns|, x) == ns + [x];
  }

  // espconn_list_delete, espconn_pbuf_delete: unlink a node, if it is there.
  // The node's own pnext is left alone and the walk goes on to the end.
  method Delete<T>(head: Node?<T>, d: Node<T>, ghost ns: seq<Node<T>>) returns (h: Node?<T>)
    requires Linked(head, ns)
    modifies ns`pnext
    ensures d !in ns ==> Linked(h, ns) && h == head
    ensures forall k | 0 <= k < |ns| && ns[k] == d :: Linked(h, RemoveAt(ns, k))
    ensures d.pnext == old(d.pnext)
  {
    h := head;
    if head == null {
    } else if head == d {
      h := d.pnext;
      LinkedRemove(h, ns, 0);
    } else {
      var p := head;
      ghost var i := 0;
      ghost var k := if d in ns then IndexOf(ns, d) else |ns| + 1;
      while p != null
        invariant i <= |ns| && p == NodeAt(ns, i) && i != k && k > 0
        invariant forall j {:trigger ns[j].pnext} | 0 <= j < |ns| && j != k - 1 :: ns[j].pnext == NodeAt(ns, j + 1)
        invariant 0 < k <= |ns| ==> ns[k - 1].pnext == NodeAt(ns, if i > k then k + 1 else k)
        invariant d.pnext == old(d.pnext)
        decreases |ns| - i
      {
        if p.pnext == d {
          assert i + 1 == k;
          p.pnext := d.pnext;
          i := i + 1;
        }
        p := p.pnext;
        i := i + 1;
      }
      if d in ns {
        LinkedRemove(h, ns, k);
      }
    }
  }
}
