// The circular receive buffer. Positions are offsets from the start of the
// buffer; one slot always stays empty. A write that does not fit overwrites the
// oldest bytes.

module RingBuffer {
  import opened Machine

  // The last n bytes of s.
  function KeepLast(s: seq<byte>, n: nat): seq<byte> {
    if |s| <= n then s else s[|s| - n..]
  }

  // A suffix, as long as fits.
  lemma KeepLastMeans(s: seq<byte>, n: nat)
    ensures var r := KeepLast(s, n);
            && |r| == (if |s| < n then |s| else n)
            && forall i | 0 <= i < |r| :: r[i] == s[|s| - |r| + i]
  {}

  function Repeat(c: byte, n: nat): (r: seq<byte>)
    ensures |r| == n && forall i | 0 <= i < n :: r[i] == c
  {
    seq(n, i => c)
  }

  // memchr on s[i..end]: the first position of c, else end.
  function FirstIndex(s: seq<byte>, c: byte, i: nat, end: nat): (k: nat)
    requires i <= end <= |s|
    ensures i <= k <= end
    ensures k < end ==> s[k] == c
    ensures forall j | i <= j < k :: s[j] != c
    decreases end - i
  {
    if i == end || s[i] == c then i else FirstIndex(s, c, i + 1, end)
  }

  // LWIP_MIN((int)a, (int)b) stored back into a size_t.
  function ToInt(x: uint32): int { if x < TWO_31 then x else x - TWO_32 }

  function ToSize(x: int): uint32
    requires -TWO_31 <= x < TWO_31
  {
    if x >= 0 then x else x + TWO_32
  }

  function MinAsInt(a: uint32, b: uint32): uint32 {
    ToSize(if ToInt(a) < ToInt(b) then ToInt(a) else ToInt(b))
  }

  // The chunk computed through the int casts fits the segment, for a segment
  // below 2^31, exactly when the remaining count is below 2^31 or no larger
  // than the segment.
  lemma ChunkFitsIff(segment: uint32, remaining: uint32)
    requires segment < TWO_31
    ensures MinAsInt(segment, remaining) <= segment <==> remaining < TWO_31
    ensures remaining < TWO_31 ==> MinAsInt(segment, remaining) == if segment < remaining then segment else remaining
  {}

  // p % size for the positions the source reduces, all below twice the size.
  function Wrap(p: nat, size: nat): nat
    requires p < 2 * size
  {
    if p < size then p else p - size
  }

  lemma WrapIsModulo(p: nat, size: nat)
    requires p < 2 * size
    ensures Wrap(p, size) == p % size
  {}

  class Ring {
    const buf: array<byte>
    var head: nat
    var tail: nat

    ghost predicate Valid()
      reads this
    {
      1 <= buf.Length < TWO_31 && head < buf.Length && tail < buf.Length
    }

    // The bytes held, oldest first.
    ghost function Contents(): (s: seq<byte>)
      reads this, buf
      requires Valid()
      ensures |s| == BytesUsed()
    {
      Held(buf[..], head, tail)
    }

    function BufferSize(): nat { buf.Length }

    function Capacity(): int { BufferSize() - 1 }

    // Free and used bytes add up to the capacity.
    function BytesFree(): (n: nat)
      reads this
      requires Valid()
      ensures n <= Capacity()
    {
      if head >= tail then Capacity() - (head - tail) else tail - head - 1
    }

    function BytesUsed(): (n: nat)
      reads this
      requires Valid()
      ensures n + BytesFree() == Capacity()
    {
      Capacity() - BytesFree()
    }

    predicate IsFull()
      reads this
      requires Valid()
    {
      BytesFree() == 0
    }

    // ringbuf_new
    constructor (capacity: nat)
      requires capacity + 1 < TWO_31
      ensures Valid() && fresh(buf) && Capacity() == capacity && Contents() == []
    {
      buf := new byte[capacity + 1](_ => 0);
      head, tail := 0, 0;
    }

    // ringbuf_nextp
    function NextP(p: nat): nat
      requires p < BufferSize()
    {
      Wrap(p + 1, BufferSize())
    }

    // Every slot, from the one after the newest byte round to the newest byte.
    ghost function Slots(): (s: seq<byte>)
      reads this, buf
      requires Valid()
      ensures |s| == BufferSize()
    {
      Rotate(buf[..], head)
    }

    lemma ContentsAreNewestSlots()
      requires Valid()
      ensures Contents() == Slots()[BufferSize() - BytesUsed()..]
    {}

    // What a finished write leaves, once the tail is set right.
    lemma WriteSettled(slots: seq<byte>, was: seq<byte>, src: seq<byte>)
      requires Valid() && |slots| == BufferSize() && |was| <= Capacity() && was == slots[|slots| - |was|..]
      requires Slots() == Shift(slots, src)
      requires BytesUsed() == if |was| + |src| <= Capacity() then |was| + |src| else Capacity()
      ensures Contents() == KeepLast(was + src, Capacity())
    {
      ContentsAreNewestSlots();
      NewestOfShifted(slots, was, src, Capacity());
    }

    // One copied chunk: n bytes at the head, inside one segment. The newest
    // slots are now the chunk; while there was room, nothing else is lost.
    method PutChunk(chunk: seq<byte>)
      requires Valid() && |chunk| <= buf.Length - head
      modifies `head, buf
      ensures Valid()
      ensures Slots() == Shift(old(Slots()), chunk)
      ensures old(BytesUsed()) + |chunk| <= Capacity() ==> BytesUsed() == old(BytesUsed()) + |chunk|
    {
      ghost var h, n, was := head, |chunk|, buf[..];
      forall i | 0 <= i < |chunk| {
        buf[head + i] := chunk[i];
      }
      head := head + |chunk|;
      if head == buf.Length {
        head := 0;
      }
      RotateWrite(was, h, chunk, buf[..]);
    }

    // The copy loop of ringbuf_memcpy_into.
    method CopyIn(src: seq<byte>)
      requires Valid() && |src| < TWO_31
      modifies `head, buf
      ensures Valid()
      ensures Slots() == Shift(old(Slots()), src)
      ensures old(BytesUsed()) + |src| <= Capacity() ==> BytesUsed() == old(BytesUsed()) + |src|
    {
      var nread := 0;
      ghost var slots, used := Slots(), BytesUsed();
      ShiftNone(slots, src);
      while nread != |src|
        invariant Valid() && nread <= |src|
        invariant Slots() == Shift(slots, src[..nread])
        invariant used + |src| <= Capacity() ==> BytesUsed() == used + nread
        decreases |src| - nread
      {
        nread := CopyChunk(src, nread, slots);
      }
      assert src[..nread] == src;
    }

    method CopyChunk(src: seq<byte>, nread: nat, ghost slots: seq<byte>) returns (next: nat)
      requires Valid() && nread < |src| < TWO_31
      requires Slots() == Shift(slots, src[..nread])
      modifies `head, buf
      ensures Valid() && nread < next <= |src|
      ensures Slots() == Shift(slots, src[..next])
      ensures old(BytesUsed()) + (next - nread) <= Capacity() ==> BytesUsed() == old(BytesUsed()) + (next - nread)
    {
      assert head < buf.Length;
      ChunkFitsIff(buf.Length - head, |src| - nread);
      var n := MinAsInt(buf.Length - head, |src| - nread);
      ShiftPrefix(slots, src, nread, n);
      PutChunk(src[nread..nread + n]);
      next := nread + n;
    }

    // ringbuf_memcpy_into. A count of 2^31 or more would defeat the int casts.
    method MemcpyInto(src: seq<byte>) returns (h: nat)
      requires Valid() && |src| < TWO_31
      modifies `head, `tail, buf
      ensures Valid() && h == head
      ensures Contents() == KeepLast(old(Contents()) + src, Capacity())
    {
      ghost var slots, was := Slots(), Contents();
      ContentsAreNewestSlots();
      CopyInAndSettle(src);
      h := head;
      WriteSettled(slots, was, src);
    }

    method CopyInAndSettle(src: seq<byte>)
      requires Valid() && |src| < TWO_31
      modifies `head, `tail, buf
      ensures Valid() && Slots() == Shift(old(Slots()), src)
      ensures var used := old(BytesUsed());
              BytesUsed() == if used + |src| <= Capacity() then used + |src| else Capacity()
    {
      var overflow := |src| > BytesFree();
      CopyIn(src);
      if overflow {
        SetTailFull();
      }
    }

    // After an overflow the tail follows the head and the buffer is full.
    method SetTailFull()
      requires Valid()
      modifies `tail
      ensures Valid() && BytesUsed() == Capacity() && IsFull() && Slots() == old(Slots())
    {
      tail := NextP(head);
    }

    // ringbuf_memset: at most one turn round the buffer is written.
    method Memset(c: byte, len: uint32) returns (nwritten: nat)
      requires Valid()
      modifies `head, `tail, buf
      ensures Valid()
      ensures nwritten == if len <= BufferSize() then len else BufferSize()
      ensures Contents() == KeepLast(old(Contents()) + Repeat(c, len), Capacity())
    {
      var count := if len < BufferSize() then len else BufferSize();
      ghost var slots, was := Slots(), Contents();
      ContentsAreNewestSlots();
      nwritten := FillAndSettle(c, count);
      WriteSettled(slots, was, Repeat(c, count));
      SameTail(was, c, count, len, Capacity());
    }

    method FillAndSettle(c: byte, count: nat) returns (nwritten: nat)
      requires Valid() && count < TWO_31
      modifies `head, `tail, buf
      ensures Valid() && nwritten == count && Slots() == Shift(old(Slots()), Repeat(c, count))
      ensures var used := old(BytesUsed());
              BytesUsed() == if used + count <= Capacity() then used + count else Capacity()
    {
      var overflow := count > BytesFree();
      nwritten := Fill(c, count);
      if overflow {
        SetTailFull();
      }
    }

    // The fill loop of ringbuf_memset.
    method Fill(c: byte, count: nat) returns (nwritten: nat)
      requires Valid() && count < TWO_31
      modifies `head, buf
      ensures Valid() && nwritten == count
      ensures Slots() == Shift(old(Slots()), Repeat(c, count))
      ensures old(BytesUsed()) + count <= Capacity() ==> BytesUsed() == old(BytesUsed()) + count
    {
      nwritten := 0;
      ghost var slots, used := Slots(), BytesUsed();
      while nwritten != count
        invariant Valid() && nwritten <= count
        invariant Slots() == Shift(slots, Repeat(c, nwritten))
        invariant used + count <= Capacity() ==> BytesUsed() == used + nwritten
        decreases count - nwritten
      {
        nwritten := FillChunk(c, count, nwritten, slots);
      }
    }

    method FillChunk(c: byte, count: nat, nwritten: nat, ghost slots: seq<byte>) returns (next: nat)
      requires Valid() && nwritten < count < TWO_31
      requires Slots() == Shift(slots, Repeat(c, nwritten))
      modifies `head, buf
      ensures Valid() && nwritten < next <= count
      ensures Slots() == Shift(slots, Repeat(c, next))
      ensures old(BytesUsed()) + (next - nwritten) <= Capacity() ==> BytesUsed() == old(BytesUsed()) + (next - nwritten)
    {
      assert head < buf.Length;
      ChunkFitsIff(buf.Length - head, count - nwritten);
      var n := MinAsInt(buf.Length - head, count - nwritten);
      ShiftRepeat(slots, c, nwritten, n);
      PutChunk(Repeat(c, n));
      next := nwritten + n;
    }

    // ringbuf_memcpy_from. Asking for more than is held takes nothing.
    method MemcpyFrom(dst: array<byte>, count: uint32) returns (t: Option<nat>)
      requires Valid() && dst != buf && (count <= BytesUsed() ==> count <= dst.Length)
      modifies `tail, dst
      ensures Valid() && t.Some? == (count <= old(BytesUsed()))
      ensures t.Some? ==> t.value == tail && dst[..count] == old(Contents())[..count] && Contents() == old(Contents())[count..]
      ensures t.Some? ==> dst[count..] == old(dst[count..])
      ensures t.None? ==> tail == old(tail) && dst[..] == old(dst[..])
    {
      if count > BytesUsed() {
        return None;
      }
      CopyOut(dst, count);
      t := Some(tail);
      CopiedSlices(old(Contents()), old(dst[..]), dst[..], count);
    }

    // The copy loop of ringbuf_memcpy_from.
    method CopyOut(dst: array<byte>, count: nat)
      requires Valid() && dst != buf && count <= BytesUsed() && count <= dst.Length
      modifies `tail, dst
      ensures Valid() && Contents() == old(Contents())[count..]
      ensures forall i | 0 <= i < dst.Length :: dst[i] == if i < count then old(Contents())[i] else old(dst[i])
    {
      var nwritten := 0;
      ghost var was := Contents();
      while nwritten != count
        invariant Valid() && nwritten <= count
        invariant Contents() == was[nwritten..]
        invariant forall i | 0 <= i < dst.Length :: dst[i] == if i < nwritten then was[i] else old(dst[i])
        decreases count - nwritten
      {
        nwritten := CopyOutChunk(dst, nwritten, count, was);
      }
    }

    method CopyOutChunk(dst: array<byte>, nwritten: nat, count: nat, ghost was: seq<byte>) returns (next: nat)
      requires Valid() && dst != buf && nwritten < count <= |was| < TWO_31 && count <= dst.Length
      requires Contents() == was[nwritten..]
      modifies `tail, dst
      ensures Valid() && nwritten < next <= count && Contents() == was[next..]
      ensures forall i | 0 <= i < dst.Length :: dst[i] == if nwritten <= i < next then was[i] else old(dst[i])
    {
      assert tail < buf.Length;
      ChunkFitsIff(buf.Length - tail, count - nwritten);
      var n := MinAsInt(buf.Length - tail, count - nwritten);
      TakeChunk(dst, nwritten, n);
      DropDrop(was, nwritten, n);
      next := nwritten + n;
    }

    // One chunk read from the tail, inside one segment.
    method TakeChunk(dst: array<byte>, at: nat, n: nat)
      requires Valid() && dst != buf && n <= buf.Length - tail && n <= BytesUsed() && at + n <= dst.Length
      modifies `tail, dst
      ensures Valid() && BytesUsed() == old(BytesUsed()) - n
      ensures Contents() == old(Contents())[n..]
      ensures forall i | 0 <= i < dst.Length ::
                dst[i] == if at <= i < at + n then old(Contents())[i - at] else old(dst[i])
    {
      HeldDrop(buf[..], head, tail, n);
      forall i | 0 <= i < n {
        dst[at + i] := buf[tail + i];
      }
      tail := tail + n;
      if tail == buf.Length {
        tail := 0;
      }
    }

    // ringbuf_findchr: the first index from offset on holding the byte c is
    // converted to, else the number of bytes held.
    function FindChr(c: int, offset: nat): (k: nat)
      reads this, buf
      requires Valid()
      ensures offset >= BytesUsed() ==> k == BytesUsed()
      ensures offset < BytesUsed() ==>
                && offset <= k <= BytesUsed()
                && (k < BytesUsed() ==> Contents()[k] == c % 0x100)
                && forall j | offset <= j < k :: Contents()[j] != c % 0x100
    {
      HeldLies(buf[..], head, tail);
      FindFrom(buf[..], tail, Held(buf[..], head, tail), BytesUsed(), c % 0x100, offset)
    }
  }

  // s lies round the buffer b from tail on.
  ghost predicate Lies(s: seq<byte>, b: seq<byte>, tail: nat) {
    |s| < |b| && tail < |b| && forall j | 0 <= j < |s| :: s[j] == b[Wrap(tail + j, |b|)]
  }

  // The search goes segment by segment, past the end of the buffer to its start.
  function FindFrom(b: seq<byte>, tail: nat, ghost held: seq<byte>, used: nat, c: byte, offset: nat): (k: nat)
    requires Lies(held, b, tail) && used == |held|
    ensures IsFirst(held, c, offset, k)
    decreases |b| - offset
  {
    if offset >= used then used
    else
      var start := Wrap(tail + offset, |b|);
      var n := if |b| - start < used - offset then |b| - start else used - offset;
      var found := FirstIndex(b, c, start, start + n);
      MissedInSegment(b, tail, held, c, offset, found - start);
      if found < start + n then
        offset + (found - start)
      else
        FirstBehind(held, c, offset, n);
        FindFrom(b, tail, held, used, c, offset + n)
  }

  // k is the first index of s from offset on that holds c, else |s|.
  predicate IsFirst(s: seq<byte>, c: byte, offset: nat, k: nat) {
    if offset >= |s| then k == |s|
    else
      && offset <= k <= |s|
      && (k < |s| ==> s[k] == c)
      && forall j | offset <= j < k :: s[j] != c
  }

  // No c among the next n bytes of the segment, so none in the contents there.
  lemma MissedInSegment(b: seq<byte>, tail: nat, held: seq<byte>, c: byte, offset: nat, n: nat)
    requires Lies(held, b, tail) && offset + n <= |held|
    requires var start := Wrap(tail + offset, |b|);
             start + n <= |b| && forall j | start <= j < start + n :: b[j] != c
    ensures forall j | offset <= j < offset + n :: held[j] != c
    ensures offset + n < |held| ==> var start := Wrap(tail + offset, |b|);
            held[offset + n] == b[if start + n < |b| then start + n else 0]
  {
    var start := Wrap(tail + offset, |b|);
    forall j | offset <= j < offset + n
      ensures held[j] != c
    {
      assert held[j] == b[start + (j - offset)];
    }
  }

  lemma FirstBehind(s: seq<byte>, c: byte, offset: nat, n: nat)
    requires offset + n <= |s|
    requires forall j | offset <= j < offset + n :: s[j] != c
    ensures forall k | IsFirst(s, c, offset + n, k) :: IsFirst(s, c, offset, k)
  {}

  // ----- sequence facts -----

  // The bytes from the tail round to the head.
  function Held(b: seq<byte>, head: nat, tail: nat): seq<byte>
    requires head < |b| && tail < |b|
  {
    if head >= tail then b[tail..head] else b[tail..] + b[..head]
  }

  lemma HeldDrop(b: seq<byte>, head: nat, tail: nat, n: nat)
    requires head < |b| && tail < |b| && n <= |Held(b, head, tail)| && n <= |b| - tail
    ensures forall i | 0 <= i < n :: Held(b, head, tail)[i] == b[tail + i]
    ensures Held(b, head, if tail + n == |b| then 0 else tail + n) == Held(b, head, tail)[n..]
  {
    if head >= tail {
      assert b[tail + n..head] == b[tail..head][n..];
    } else if tail + n == |b| {
      assert (b[tail..] + b[..head])[n..] == b[..head] == b[0..head];
    } else {
      assert (b[tail..] + b[..head])[n..] == b[tail + n..] + b[..head];
    }
  }

  lemma DropDrop(s: seq<byte>, m: nat, n: nat)
    requires m + n <= |s|
    ensures s[m..][n..] == s[m + n..]
  {}

  lemma CopiedSlices(src: seq<byte>, was: seq<byte>, now: seq<byte>, n: nat)
    requires n <= |src| && n <= |was| == |now|
    requires forall i | 0 <= i < |now| :: now[i] == if i < n then src[i] else was[i]
    ensures now[..n] == src[..n] && now[n..] == was[n..]
  {}

  lemma HeldLies(b: seq<byte>, head: nat, tail: nat)
    requires head < |b| && tail < |b|
    ensures Lies(Held(b, head, tail), b, tail)
  {}

  // s with x pushed in from the right, at the same length.
  function Shift(s: seq<byte>, x: seq<byte>): (r: seq<byte>)
    ensures |r| == |s|
  {
    (s + x)[|x|..]
  }

  function Rotate(s: seq<byte>, h: nat): seq<byte>
    requires h <= |s|
  {
    s[h..] + s[..h]
  }

  lemma RotateWrite(was: seq<byte>, h: nat, chunk: seq<byte>, now: seq<byte>)
    requires h + |chunk| <= |was| == |now|
    requires now == was[..h] + chunk + was[h + |chunk|..]
    ensures Rotate(now, h + |chunk|) == Shift(Rotate(was, h), chunk)
    ensures Rotate(now, |now|) == Rotate(now, 0)
  {}

  lemma ShiftMore(s: seq<byte>, x: seq<byte>, y: seq<byte>)
    ensures Shift(Shift(s, x), y) == Shift(s, x + y)
  {}

  lemma ShiftNone(s: seq<byte>, src: seq<byte>)
    ensures Shift(s, src[..0]) == s && Shift(s, []) == s
  {}

  lemma ShiftPrefix(s: seq<byte>, src: seq<byte>, k: nat, n: nat)
    requires k + n <= |src|
    ensures Shift(Shift(s, src[..k]), src[k..k + n]) == Shift(s, src[..k + n])
  {
    ShiftMore(s, src[..k], src[k..k + n]);
    assert src[..k + n] == src[..k] + src[k..k + n];
  }

  lemma ShiftRepeat(s: seq<byte>, c: byte, k: nat, n: nat)
    ensures Shift(Shift(s, Repeat(c, k)), Repeat(c, n)) == Shift(s, Repeat(c, k + n))
  {
    ShiftMore(s, Repeat(c, k), Repeat(c, n));
    assert Repeat(c, k) + Repeat(c, n) == Repeat(c, k + n);
  }

  // The newest bytes of a buffer that src was shifted into.
  lemma NewestOfShifted(slots: seq<byte>, was: seq<byte>, src: seq<byte>, capacity: nat)
    requires |slots| == capacity + 1 && |was| <= capacity && was == slots[|slots| - |was|..]
    ensures var after := Shift(slots, src);
            var held := was + src;
            KeepLast(held, capacity) == after[|after| - (if |held| <= capacity then |held| else capacity)..]
  {
    var m := if |was + src| <= capacity then |was + src| else capacity;
    assert slots == slots[..|slots| - |was|] + was;
    assert slots + src == slots[..|slots| - |was|] + (was + src);
    KeepLastOfSuffix(slots[..|slots| - |was|], was + src, m);
    assert Shift(slots, src)[|slots| - m..] == (slots + src)[|slots| + |src| - m..];
  }

  // Only the last n bytes matter.
  lemma KeepLastOfSuffix(p: seq<byte>, q: seq<byte>, n: nat)
    requires n <= |q|
    ensures KeepLast(p + q, n) == KeepLast(q, n) == q[|q| - n..] == (p + q)[|p + q| - n..]
  {
    assert q[|q| - n..] == (p + q)[|p + q| - n..];
  }

  lemma SameTail(was: seq<byte>, c: byte, count: nat, len: nat, capacity: nat)
    requires count == if len < capacity + 1 then len else capacity + 1
    ensures KeepLast(was + Repeat(c, len), capacity) == KeepLast(was + Repeat(c, count), capacity)
  {
    if count < len {
      KeepLastOfSuffix(was, Repeat(c, len), capacity);
      KeepLastOfSuffix(was, Repeat(c, count), capacity);
      assert Repeat(c, len)[len - capacity..] == Repeat(c, count)[count - capacity..];
    }
  }

  lemma SplitBehind(x: seq<byte>, y: seq<byte>, k: nat)
    requires k <= |x|
    ensures x + y == x[..k] + (x[k..] + y)
  {}

  lemma KeepLastAbsorbs(x: seq<byte>, y: seq<byte>, n: nat)
    ensures KeepLast(KeepLast(x, n) + y, n) == KeepLast(x + y, n)
  {
    if |x| > n {
      SplitBehind(x, y, |x| - n);
      KeepLastOfSuffix(x[..|x| - n], x[|x| - n..] + y, n);
    }
  }

  lemma Regrouped(s: seq<byte>, xs: seq<byte>, ys: seq<byte>)
    ensures s + (xs + ys) == (s + xs) + ys
  {}

  // WRITING IN PARTS. Two writes leave what one write of both leaves, however
  // often they run over the end of the buffer.
  lemma WritesCompose(s: seq<byte>, xs: seq<byte>, ys: seq<byte>, n: nat)
    ensures KeepLast(KeepLast(s + xs, n) + ys, n) == KeepLast(s + (xs + ys), n)
  {
    Regrouped(s, xs, ys);
    KeepLastAbsorbs(s + xs, ys, n);
  }
}
