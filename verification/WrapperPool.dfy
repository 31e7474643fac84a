// The free list of packet wrappers, grown eight at a time and never shrunk.

module WrapperPool {
  import opened Lists

  const PBUF_WRAPPER_BLOCK := 8

  // T is what a wrapper holds while it is out.
  class Pool<T> {
    var head: Node?<T>
    ghost var free: seq<Node<T>>
    ghost var out: set<Node<T>>     // handed out and not released
    ghost var blocks: nat           // blocks allocated
    ghost var peak: nat             // most wrappers ever out at once
    ghost var repr: set<Node<T>>

    // Every wrapper is on the free list or out, and on the list once.
    ghost predicate Shape()
      reads this, free
    {
      && Linked(head, free)
      && (forall i | 0 <= i < |free| :: free[i] in repr && free[i] !in out)
      && out <= repr
      && |free| + |out| == 8 * blocks
    }

    // A block is allocated only when all wrappers are out.
    ghost predicate Valid()
      reads this, free
    {
      Shape() && |out| <= peak && 8 * blocks <= peak + 7
    }

    constructor ()
      ensures Valid() && fresh(this) && free == [] && out == {} && blocks == 0 && peak == 0 && repr == {}
    {
      head, free, out, blocks, peak, repr := null, [], {}, 0, 0, {};
    }

    // Eight new wrappers, linked from the last to the first.
    static method Block(filler: T) returns (h: Node<T>, ghost ns: seq<Node<T>>)
      ensures |ns| == 8 && Linked(h, ns)
      ensures forall i | 0 <= i < 8 :: fresh(ns[i])
    {
      h := new Node(filler);
      ns := [h];
      var i := 1;
      while i < PBUF_WRAPPER_BLOCK
        invariant 1 <= i <= 8 && |ns| == i && Linked(h, ns)
        invariant forall j | 0 <= j < i :: fresh(ns[j])
      {
        var p := new Node(filler);
        p.pnext := h;
        LinkedInsert(p, ns, 0, p);
        InsertAtElements(ns, 0, p);
        h, ns := p, InsertAt(ns, 0, p);
        i := i + 1;
      }
    }

    method Grow(filler: T)
      requires Shape() && |free| == 0
      modifies this
      ensures Shape() && |free| == 8 && out == old(out) && blocks == old(blocks) + 1 && peak == old(peak)
      ensures fresh(repr - old(repr)) && old(repr) <= repr
    {
      var h;
      ghost var ns;
      h, ns := Block(filler);
      head, free, blocks := h, ns, blocks + 1;
      repr := repr + set n | n in ns;
    }

    method Pop() returns (w: Node<T>)
      requires Shape() && |free| > 0
      modifies `head, `free, `out
      ensures Shape() && w !in old(out) && out == old(out) + {w} && w in repr
    {
      w := head;
      LinkedRemove(head.pnext, free, 0);
      RemoveAtElements(free, 0);
      DistinctRemove(free, 0);
      head, free, out := head.pnext, RemoveAt(free, 0), out + {w};
    }

    // pbuf_wrapper_get; memory says whether a block can be allocated.
    method Get(filler: T, memory: bool) returns (w: Node?<T>)
      requires Valid()
      modifies this
      ensures Valid() && fresh(repr - old(repr)) && old(repr) <= repr
      ensures w == null <==> |old(free)| == 0 && !memory
      ensures w == null ==> out == old(out) && blocks == old(blocks) && peak == old(peak)
      ensures w != null ==> w !in old(out) && out == old(out) + {w} && w in repr
      ensures blocks == old(blocks) + if |old(free)| == 0 && memory then 1 else 0
      ensures peak == if w != null && |out| > old(peak) then |out| else old(peak)
    {
      if head == null {
        if !memory {
          return null;
        }
        Grow(filler);
      }
      w := Pop();
      peak := if |out| > peak then |out| else peak;
    }

    // pbuf_wrapper_release
    method Release(w: Node<T>)
      requires Valid() && w in out
      modifies this, w`pnext
      ensures Valid() && out == old(out) - {w} && w in free && repr == old(repr)
      ensures blocks == old(blocks) && peak == old(peak)
    {
      w.pnext := head;
      LinkedInsert(w, free, 0, w);
      InsertAtElements(free, 0, w);
      head, free, out := w, InsertAt(free, 0, w), out - {w};
    }
  }
}
