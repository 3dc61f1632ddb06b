/** The index arithmetic of `src/ringbuf.c`: `n` slots, one of which always stays free. */
module Ring {
  import opened Basics

  type Item = seq<Byte>

  /** `ringbuf_size` for `n` slots. */
  function RingSize(n: nat, write: nat, read: nat): (r: nat)
    requires write < n && read < n
    ensures r < n
  {
    if write > read then write - read else if read > write then write + n - read else 0
  }

  /** The slot holding the k-th oldest unread item. */
  function RingSlot(n: nat, read: nat, k: nat): (i: nat)
    requires read < n && k < n
    ensures i < n
  {
    if read + k < n then read + k else read + k - n
  }

  /** The unread items, oldest first. */
  ghost function Unread(slots: seq<Item>, write: nat, read: nat): (q: seq<Item>)
    requires write < |slots| && read < |slots|
    ensures |q| == RingSize(|slots|, write, read)
  {
    seq(RingSize(|slots|, write, read),
        k requires 0 <= k < RingSize(|slots|, write, read) => slots[RingSlot(|slots|, read, k)])
  }

  lemma RingFacts(n: nat, write: nat, read: nat)
    requires write < n && read < n
    ensures (write + 1) % n == if write + 1 == n then 0 else write + 1
    ensures (write + 1) % n == read <==> RingSize(n, write, read) == n - 1
    ensures RingSize(n, write, read) == 0 <==> write == read
    ensures RingSlot(n, read, RingSize(n, write, read)) == write
    ensures forall k :: 0 <= k < RingSize(n, write, read) ==> RingSlot(n, read, k) != write
  {
    if write + 1 == n {
      assert (write + 1) % n == 0;
    } else {
      assert (write + 1) % n == write + 1;
    }
  }

  lemma PushUnread(slots: seq<Item>, write: nat, read: nat)
    requires write < |slots| && read < |slots|
    requires (write + 1) % |slots| != read
    ensures Unread(slots, (write + 1) % |slots|, read) == Unread(slots, write, read) + [slots[write]]
  {
    RingFacts(|slots|, write, read);
    var w := (write + 1) % |slots|;
    var size := RingSize(|slots|, write, read);
    assert RingSize(|slots|, w, read) == size + 1;
    assert Unread(slots, w, read)[size] == slots[write];
  }

  lemma PopUnread(slots: seq<Item>, write: nat, read: nat)
    requires write < |slots| && read < |slots| && write != read
    ensures Unread(slots, write, read) == [slots[read]] + Unread(slots, write, (read + 1) % |slots|)
  {
    RingFacts(|slots|, read, write);
    RingFacts(|slots|, write, read);
    var r := (read + 1) % |slots|;
    var size := RingSize(|slots|, write, read);
    assert RingSize(|slots|, write, r) == size - 1;
    forall k | 0 <= k < size
      ensures Unread(slots, write, read)[k] == ([slots[read]] + Unread(slots, write, r))[k]
    {
      if k > 0 {
        assert RingSlot(|slots|, read, k) == RingSlot(|slots|, r, k - 1);
      }
    }
  }

  lemma WriteOutsideUnread(slots: seq<Item>, write: nat, read: nat, item: Item)
    requires write < |slots| && read < |slots|
    ensures Unread(slots[write := item], write, read) == Unread(slots, write, read)
  {
    RingFacts(|slots|, write, read);
  }
}

/** `ringbuf_t` as it is: a flat byte buffer written and read in place through two indices. */
module RingBuffer {
  import opened Basics
  import opened Ring

  lemma SlotBounds(n: nat, size: nat, i: nat)
    requires i < n
    ensures 0 <= i * size <= (i + 1) * size <= n * size
    ensures (i + 1) * size == i * size + size
  {
    var rest := n - (i + 1);
    assert rest * size >= 0;
    assert n * size == (i + 1) * size + rest * size;
    assert (i + 1) * size == i * size + size;
    assert i * size >= 0;
  }

  /** Different slots occupy disjoint stretches of the buffer. */
  lemma SlotsDisjoint(size: nat, i: nat, j: nat)
    requires i < j
    ensures (i + 1) * size <= j * size
  {
    var gap := j - (i + 1);
    assert gap * size >= 0;
    assert j * size == (i + 1) * size + gap * size;
  }

  function SlotBytes(bytes: seq<Byte>, n: nat, size: nat, i: nat): (item: Item)
    requires |bytes| == n * size && i < n
    ensures |item| == size
  {
    SlotBounds(n, size, i);
    bytes[i * size..(i + 1) * size]
  }

  /** The buffer read as a sequence of slots. */
  ghost function Slots(bytes: seq<Byte>, n: nat, size: nat): (s: seq<Item>)
    requires |bytes| == n * size
    ensures |s| == n
  {
    seq(n, i requires 0 <= i < n => SlotBytes(bytes, n, size, i))
  }

  /** Overwriting the bytes of one slot changes that slot and no other. */
  lemma WriteSlot(before: seq<Byte>, after: seq<Byte>, n: nat, size: nat, w: nat, item: Item)
    requires |before| == |after| == n * size && w < n && |item| == size
    requires forall k :: 0 <= k < n * size ==>
                           after[k] == if w * size <= k < w * size + size then item[k - w * size] else before[k]
    ensures Slots(after, n, size) == Slots(before, n, size)[w := item]
  {
    forall i | 0 <= i < n
      ensures SlotBytes(after, n, size, i) == if i == w then item else SlotBytes(before, n, size, i)
    {
      SlotBounds(n, size, i);
      SlotBounds(n, size, w);
      if i < w {
        SlotsDisjoint(size, i, w);
      } else if w < i {
        SlotsDisjoint(size, w, i);
      }
    }
  }

  lemma SmallMultiple(d: int, size: nat, r: nat)
    requires d * size == r < size
    ensures d == 0
  {
    assert d > 0 ==> (d - 1) * size >= 0;
    assert d < 0 ==> (d + 1) * size <= 0;
  }

  lemma TotalItems(n: nat, size: nat)
    requires size > 0
    ensures (n * size) / size == n
  {
    var q, r := (n * size) / size, (n * size) % size;
    assert n * size == q * size + r;
    SmallMultiple(n - q, size, r);
  }

  class RingBuf {
    var writeIndex: nat
    var readIndex: nat
    const buffer: array<Byte>
    const itemSize: nat
    ghost const slotCount: nat

    ghost predicate Valid()
      reads this, buffer
    {
      && itemSize > 0 && slotCount > 0
      && buffer.Length == slotCount * itemSize
      && writeIndex < slotCount && readIndex < slotCount
    }

    /** The queued items, oldest first. */
    ghost function Contents(): (q: seq<Item>)
      requires Valid()
      reads this, buffer
    {
      Unread(Slots(buffer[..], slotCount, itemSize), writeIndex, readIndex)
    }

    /** RINGBUF_BUFFER_SIZE reserves one slot more than the ring can hold. */
    constructor (size: nat, maxItems: nat)
      requires size > 0
      ensures Valid() && fresh(buffer)
      ensures itemSize == size && slotCount == maxItems + 1 && Contents() == []
    {
      buffer := new Byte[size * (maxItems + 1)](_ => 0);
      itemSize, slotCount := size, maxItems + 1;
      writeIndex, readIndex := 0, 0;
    }

    function TotalSlots(): (n: nat)
      requires Valid()
      reads this, buffer
      ensures n == slotCount
    {
      TotalItems(slotCount, itemSize);
      buffer.Length / itemSize
    }

    method IsEmpty() returns (b: bool)
      requires Valid()
      ensures b <==> Contents() == []
    {
      RingFacts(slotCount, writeIndex, readIndex);
      b := writeIndex == readIndex;
    }

    method IsFull() returns (b: bool)
      requires Valid()
      ensures b <==> |Contents()| == slotCount - 1
    {
      RingFacts(slotCount, writeIndex, readIndex);
      b := (writeIndex + 1) % TotalSlots() == readIndex;
    }

    method Size() returns (n: nat)
      requires Valid()
      ensures n == |Contents()|
    {
      if writeIndex > readIndex {
        return writeIndex - readIndex;
      }
      if readIndex > writeIndex {
        return writeIndex + TotalSlots() - readIndex;
      }
      return 0;
    }

    method Capacity() returns (n: nat)
      requires Valid()
      ensures n == slotCount - 1 && |Contents()| <= n
    {
      n := TotalSlots() - 1;
    }

    /** A NULL item is None. */
    method Put(item: Option<Item>) returns (ok: bool)
      requires Valid() && (item.Some? ==> |item.value| == itemSize)
      modifies this`writeIndex, buffer
      ensures Valid()
      ensures ok <==> item.Some? && |old(Contents())| < slotCount - 1
      ensures Contents() == if ok then old(Contents()) + [item.value] else old(Contents())
    {
      if item.None? {
        return false;
      }
      var full := IsFull();
      if full {
        return false;
      }
      ghost var before := buffer[..];
      var start := writeIndex * itemSize;
      SlotBounds(slotCount, itemSize, writeIndex);
      forall k | start <= k < start + itemSize {
        buffer[k] := item.value[k - start];
      }
      WriteSlot(before, buffer[..], slotCount, itemSize, writeIndex, item.value);
      ghost var slots := Slots(before, slotCount, itemSize);
      WriteOutsideUnread(slots, writeIndex, readIndex, item.value);
      RingFacts(slotCount, writeIndex, readIndex);
      PushUnread(slots[writeIndex := item.value], writeIndex, readIndex);
      writeIndex := (writeIndex + 1) % TotalSlots();
      ok := true;
    }

    /** The `memcpy` out of the slot at the read index. */
    method ReadSlot() returns (r: Option<Item>)
      requires Valid()
      ensures r == Some(Slots(buffer[..], slotCount, itemSize)[readIndex])
    {
      SlotBounds(slotCount, itemSize, readIndex);
      var start := readIndex * itemSize;
      r := Some(buffer[start..start + itemSize]);
      assert buffer[..][start..start + itemSize] == buffer[start..start + itemSize];
    }

    method GetInternal(remove: bool) returns (r: Option<Item>)
      requires Valid()
      modifies this`readIndex
      ensures Valid()
      ensures r.Some? <==> old(Contents()) != []
      ensures r.Some? ==> r.value == old(Contents())[0]
      ensures Contents() == if r.Some? && remove then old(Contents())[1..] else old(Contents())
    {
      var empty := IsEmpty();
      if empty {
        return None;
      }
      ghost var slots := Slots(buffer[..], slotCount, itemSize);
      r := ReadSlot();
      PopUnread(slots, writeIndex, readIndex);
      if remove {
        readIndex := (readIndex + 1) % TotalSlots();
      }
    }

    method Reset()
      requires Valid()
      modifies this`writeIndex, this`readIndex
      ensures Valid() && Contents() == []
    {
      writeIndex, readIndex := 0, 0;
    }
  }
}
