/** What the single-element and block operations of src/mesh/CircularBuffer.h
    do to the unread data: writes append (or drop the oldest when marked
    full), every consume removes a prefix and returns it, the deferred clear
    never discards unread data, and a bounded burst of writes read back with
    `consume` comes out in order. */
module BufferFifo {
  import opened Common
  import opened CircularBuffer

  lemma SlotOfCount(b: Buffer)
    requires WellFormed(b)
    ensures Slot(b, Count(b)) == b.head
  {
  }

  /** Moving `tail` forward by `k <= Count` slots, with storage and `head`
      untouched, removes exactly the `k` oldest unread elements.  Every
      consume operation is an instance of this. */
  lemma AdvanceTail(b: Buffer, r: Buffer, k: nat)
    requires WellFormed(b) && WellFormed(r) && k <= Count(b)
    requires r.storage == b.storage && r.head == b.head && r.fixedSize == b.fixedSize
    requires r.tail == (b.tail + k) % b.fixedSize
    ensures Contents(r) == Contents(b)[k..]
  {
    ModNear(b.tail + k, b.fixedSize);
    assert Count(r) == Count(b) - k;
    forall i | 0 <= i < Count(r)
      ensures Contents(r)[i] == Contents(b)[k + i]
    {
      assert Slot(r, i) == Slot(b, k + i);
    }
  }

  // ---------------------------------------------------------------------
  // write(item)

  /** Below the effective capacity of `fixedSize - 1`, a write appends. */
  lemma WriteAppends(b: Buffer, item: byte)
    requires Valid(b) && Count(b) < b.fixedSize - 1
    ensures Contents(Write(b, item)) == Contents(b) + [item]
    ensures !Empty(Write(b, item)) && Write(b, item).tail == b.tail
  {
    var r := Write(b, item);
    ModNear(b.head + 1, b.fixedSize);
    SlotOfCount(b);
    assert Count(r) == Count(b) + 1;
    forall i | 0 <= i < Count(r)
      ensures Contents(r)[i] == (Contents(b) + [item])[i]
    {
      assert Slot(r, i) == Slot(b, i);
    }
  }

  /** A write to a buffer marked full drops exactly the oldest element. */
  lemma WriteWhenFullDropsOldest(b: Buffer, item: byte)
    requires Valid(b) && Full(b)
    ensures Contents(Write(b, item)) == Contents(b)[1..] + [item]
    ensures |Contents(Write(b, item))| == b.fixedSize - 1
  {
    var r := Write(b, item);
    var n := b.fixedSize;
    ModNear(b.head + 1, n);
    ModNear(b.head + 2, n);
    assert Count(b) == n - 1;
    assert Count(r) == n - 1;
    SlotOfCount(b);
    forall i | 0 <= i < n - 1
      ensures Contents(r)[i] == (Contents(b)[1..] + [item])[i]
    {
      assert Slot(r, i) == Slot(b, i + 1);
      assert Slot(b, 0) == b.head + 1;
    }
  }

  /** With `fixedSize - 1` unread elements but `maxed` false, a write makes
      `head` catch up with `tail`: everything unread, the new element
      included, disappears.  `maxed` is false in that state whenever
      `tail == 0`, because `head == tail - 1` is evaluated in `int`. */
  lemma WriteAtCapacityLooksEmpty(b: Buffer, item: byte)
    requires Valid(b) && !Full(b) && Count(b) == b.fixedSize - 1
    ensures Empty(Write(b, item)) && Contents(Write(b, item)) == []
  {
    ModNear(b.head + 1, b.fixedSize);
  }

  // ---------------------------------------------------------------------
  // consume family

  /** `consume()` returns the oldest element and removes only it; on an
      empty buffer it returns 0 and changes nothing. */
  lemma ConsumeTakesOldest(b: Buffer)
    requires Valid(b)
    ensures Empty(b) ==> Consume(b) == (b, EndItem)
    ensures !Empty(b) ==>
      && Consume(b).1 == Contents(b)[0]
      && Contents(Consume(b).0) == Contents(b)[1..]
      && !Full(Consume(b).0)
  {
    if !Empty(b) {
      AdvanceTail(b, Consume(b).0, 1);
    }
  }

  /** Zero-copy `consume_block()` hands out the oldest unread elements and
      removes exactly those. */
  lemma ConsumeBlockTakesPrefix(b: Buffer)
    requires Valid(b)
    ensures var (r, block) := ConsumeBlock(b);
      && block == Contents(b)[..|block|]
      && Contents(r) == Contents(b)[|block|..]
  {
    var (r, block) := ConsumeBlock(b);
    AdvanceTail(b, r, |block|);
    forall i | 0 <= i < |block|
      ensures block[i] == Contents(b)[i]
    {
      assert Slot(b, i) == b.tail + i;
    }
  }

  /** Two zero-copy calls drain the buffer, and the two blocks together are
      the unread data in order. */
  lemma ConsumeBlockTwiceDrains(b: Buffer)
    requires Valid(b)
    ensures var (r1, block1) := ConsumeBlock(b);
      var (r2, block2) := ConsumeBlock(r1);
      && Empty(r2)
      && block1 + block2 == Contents(b)
  {
    var (r1, block1) := ConsumeBlock(b);
    var (r2, block2) := ConsumeBlock(r1);
    ConsumeBlockTakesPrefix(b);
    ConsumeBlockTakesPrefix(r1);
    assert Empty(r2);
    EmptyAndFullMeaning(r2);
    calc {
      block1 + block2;
      Contents(b)[..|block1|] + Contents(r1)[..|block2|];
      { assert |block2| == |Contents(r1)|; }
      Contents(b)[..|block1|] + Contents(b)[|block1|..];
    }
  }

  /** Copying `consume_block(block, block_size)` copies out the oldest
      `min(block_size, run)` elements and removes exactly those. */
  lemma ConsumeIntoTakesPrefix(b: Buffer, blockSize: nat)
    requires Valid(b) && blockSize < 0x1_0000
    ensures var (r, copied) := ConsumeInto(b, blockSize);
      && copied == Contents(b)[..|copied|]
      && Contents(r) == Contents(b)[|copied|..]
      && (blockSize >= Consumable(b) ==> |copied| == Consumable(b))
  {
    var (r, copied) := ConsumeInto(b, blockSize);
    AdvanceTail(b, r, |copied|);
    forall i | 0 <= i < |copied|
      ensures copied[i] == Contents(b)[i]
    {
      assert Slot(b, i) == b.tail + i;
    }
  }

  /** Copying zero elements out of a full buffer still clears `maxed`,
      leaving `fixedSize - 1` unread elements unmarked; the next write then
      makes `head` catch up with `tail` and everything unread is lost. */
  lemma ZeroConsumeThenWriteLosesAll(b: Buffer, item: byte)
    requires Valid(b) && Full(b)
    ensures var (r, copied) := ConsumeInto(b, 0);
      && copied == [] && Contents(r) == Contents(b) && !Full(r)
      && Contents(Write(r, item)) == []
  {
    var (r, copied) := ConsumeInto(b, 0);
    ConsumeIntoTakesPrefix(b, 0);
    EmptyAndFullMeaning(b);
    assert Contents(b)[0..] == Contents(b);
    WriteAtCapacityLooksEmpty(r, item);
  }

  // ---------------------------------------------------------------------
  // Deferred clear

  /** A write landing between the two halves of `clear_if_empty()` cancels
      the latch, so the second half leaves the freshly written data alone. */
  lemma InterleavedWriteCancelsClear(b: Buffer, item: byte)
    requires Valid(b)
    ensures var w := Write(RequestClear(b), item);
      ApplyClear(w) == w
  {
  }

  /** A reset only happens when nothing is unread: whatever happens between
      the two halves, the second half never changes the unread data, and
      after a reset that took effect the buffer reads as empty. */
  lemma ClearIfEmptyKeepsData(b: Buffer)
    requires Valid(b)
    ensures Contents(ApplyClear(b)) == Contents(b)
    ensures ApplyClear(b) != b ==> Empty(ApplyClear(b)) && Empty(b)
  {
  }

  // ---------------------------------------------------------------------
  // Sequences of operations

  function WriteEach(b: Buffer, items: seq<byte>): (r: Buffer)
    requires Valid(b)
    ensures Valid(r) && r.fixedSize == b.fixedSize
    decreases |items|
  {
    if |items| == 0 then b else WriteEach(Write(b, items[0]), items[1..])
  }

  function ConsumeEach(b: Buffer, k: nat): (r: (Buffer, seq<byte>))
    requires Valid(b)
    ensures Valid(r.0) && |r.1| == k
    decreases k
  {
    if k == 0 then (b, [])
    else
      var (b1, x) := Consume(b);
      var (b2, xs) := ConsumeEach(b1, k - 1);
      (b2, [x] + xs)
  }

  /** Writes that stay within the effective capacity append in order. */
  lemma {:induction false} WriteEachAppends(b: Buffer, items: seq<byte>)
    requires Valid(b) && Count(b) + |items| <= b.fixedSize - 1
    ensures Contents(WriteEach(b, items)) == Contents(b) + items
    ensures WriteEach(b, items).tail == b.tail
    decreases |items|
  {
    if |items| > 0 {
      WriteAppends(b, items[0]);
      var b1 := Write(b, items[0]);
      WriteEachAppends(b1, items[1..]);
      assert Contents(b) + [items[0]] + items[1..] == Contents(b) + items;
    }
  }

  /** `k` calls to `consume()` return the `k` oldest elements in order. */
  lemma {:induction false} ConsumeEachTakesOldest(b: Buffer, k: nat)
    requires Valid(b) && k <= Count(b)
    ensures ConsumeEach(b, k).1 == Contents(b)[..k]
    ensures Contents(ConsumeEach(b, k).0) == Contents(b)[k..]
    decreases k
  {
    if k > 0 {
      ConsumeTakesOldest(b);
      var (b1, x) := Consume(b);
      ConsumeEachTakesOldest(b1, k - 1);
      assert Contents(b1) == Contents(b)[1..];
      assert [x] + Contents(b)[1..][..k - 1] == Contents(b)[..k];
    }
  }

  /** FIFO round trip: up to `fixedSize - 1` elements written into an empty
      buffer come back from `consume()` in the order written, the buffer is
      empty again, and one more `consume()` returns 0 and changes nothing. */
  lemma FifoRoundTrip(b: Buffer, items: seq<byte>)
    requires Valid(b) && Empty(b) && |items| <= b.fixedSize - 1
    ensures var (r, out) := ConsumeEach(WriteEach(b, items), |items|);
      && out == items
      && Empty(r)
      && Consume(r) == (r, EndItem)
  {
    EmptyAndFullMeaning(b);
    WriteEachAppends(b, items);
    var w := WriteEach(b, items);
    ConsumeEachTakesOldest(w, |items|);
    var r := ConsumeEach(w, |items|).0;
    EmptyAndFullMeaning(r);
  }

  /** Overrunning a cleared buffer with single writes loses everything: after
      `fixedSize` writes the buffer reads as empty, instead of holding the
      newest elements. */
  lemma OverrunAfterClearLosesEverything(b: Buffer, items: seq<byte>)
    requires Valid(b) && |items| == b.fixedSize
    ensures Contents(WriteEach(Clear(b), items)) == []
  {
    var c := Clear(b);
    var n := b.fixedSize;
    WriteEachAppends(c, items[..n - 1]);
    var w := WriteEach(c, items[..n - 1]);
    WriteEachSplit(c, items[..n - 1], [items[n - 1]]);
    assert items[..n - 1] + [items[n - 1]] == items;
    assert WriteEach(w, [items[n - 1]]) == Write(w, items[n - 1]);
    assert Count(w) == n - 1;
    assert w.tail == 0;
    WriteAtCapacityLooksEmpty(w, items[n - 1]);
  }

  lemma {:induction false} WriteEachSplit(b: Buffer, xs: seq<byte>, ys: seq<byte>)
    requires Valid(b)
    ensures WriteEach(b, xs + ys) == WriteEach(WriteEach(b, xs), ys)
    decreases |xs|
  {
    if |xs| > 0 {
      assert (xs + ys)[1..] == xs[1..] + ys;
      WriteEachSplit(Write(b, xs[0]), xs[1..], ys);
    } else {
      assert xs + ys == ys;
    }
  }

  // ---------------------------------------------------------------------
  // write(item) with the full test taken modulo fixedSize

  /** The newest `k` elements of `s` (all of them when there are fewer). */
  function Newest(k: nat, s: seq<byte>): (r: seq<byte>)
    ensures |r| == Min(k, |s|) && r == s[|s| - |r|..]
  {
    if |s| <= k then s else s[|s| - k..]
  }

  /** `maxed` agrees with the unread count: set exactly when `fixedSize - 1`
      elements are unread. */
  predicate Tracked(b: Buffer)
  {
    WellFormed(b) && (b.maxed <==> Count(b) == b.fixedSize - 1)
  }

  /** Being at capacity is `(head + 1) % fixedSize == tail`, the test the
      bulk write already uses; `head == tail - 1` misses the case
      `tail == 0`. */
  lemma AtCapacity(b: Buffer)
    requires WellFormed(b)
    ensures Count(b) == b.fixedSize - 1 <==> (b.head + 1) % b.fixedSize == b.tail
  {
    ModNear(b.head + 1, b.fixedSize);
  }

  /** `write(item)` with `maxed` set by the modular test. */
  function WriteFixed(b: Buffer, item: byte): (r: Buffer)
    requires Tracked(b)
    ensures Tracked(r) && r.fixedSize == b.fixedSize && !r.willClearIfEmpty
  {
    var size := b.fixedSize;
    var tail := if b.maxed then (b.head + 2) % size else b.tail;
    var head := (b.head + 1) % size;
    ModNear(b.head + 1, size);
    ModNear(b.head + 2, size);
    AtCapacity(b);
    var r := Buffer(b.storage[b.head := item][b.head + 1 := EndItem], size, head, tail,
                    (head + 1) % size == tail, false);
    AtCapacity(r);
    r
  }

  /** The corrected write keeps the newest `fixedSize - 1` elements: it
      appends, and at capacity drops exactly the oldest. */
  lemma WriteFixedKeepsNewest(b: Buffer, item: byte)
    requires Tracked(b)
    ensures Contents(WriteFixed(b, item)) == Newest(b.fixedSize - 1, Contents(b) + [item])
  {
    var s := Contents(b) + [item];
    if b.maxed {
      WriteFixedAtCapacity(b, item);
      assert Newest(b.fixedSize - 1, s) == s[1..];
    } else {
      WriteFixedBelowCapacity(b, item);
      assert Newest(b.fixedSize - 1, s) == s;
    }
  }

  lemma WriteFixedAtCapacity(b: Buffer, item: byte)
    requires Tracked(b) && b.maxed
    ensures Contents(WriteFixed(b, item)) == (Contents(b) + [item])[1..]
  {
    var r := WriteFixed(b, item);
    var n := b.fixedSize;
    ModNear(b.head + 1, n);
    ModNear(b.head + 2, n);
    AtCapacity(b);
    SlotOfCount(b);
    assert Count(r) == n - 1;
    forall i | 0 <= i < n - 1
      ensures Contents(r)[i] == (Contents(b) + [item])[i + 1]
    {
      assert Slot(r, i) == Slot(b, i + 1);
    }
  }

  lemma WriteFixedBelowCapacity(b: Buffer, item: byte)
    requires Tracked(b) && !b.maxed
    ensures Contents(WriteFixed(b, item)) == Contents(b) + [item]
  {
    var r := WriteFixed(b, item);
    ModNear(b.head + 1, b.fixedSize);
    SlotOfCount(b);
    assert Count(r) == Count(b) + 1;
    forall i | 0 <= i < Count(r)
      ensures Contents(r)[i] == (Contents(b) + [item])[i]
    {
      assert Slot(r, i) == Slot(b, i);
    }
  }

  function WriteEachFixed(b: Buffer, items: seq<byte>): (r: Buffer)
    requires Tracked(b)
    ensures Tracked(r) && r.fixedSize == b.fixedSize
    decreases |items|
  {
    if |items| == 0 then b else WriteEachFixed(WriteFixed(b, items[0]), items[1..])
  }

  /** Keeping the newest `k` of a suffix that is at least `k` long (or the
      whole sequence) is keeping the newest `k` of the whole. */
  lemma NewestOfSuffix(k: nat, p: seq<byte>, u: seq<byte>)
    requires |u| >= k || |p| == 0
    ensures Newest(k, p + u) == Newest(k, u)
  {
    if |p| == 0 {
      assert p + u == u;
    }
  }

  /** Trimming to the newest `k` early does not change the newest `k` at
      the end. */
  lemma NewestAbsorbs(k: nat, s: seq<byte>, t: seq<byte>)
    ensures Newest(k, Newest(k, s) + t) == Newest(k, s + t)
  {
    var kept := Newest(k, s);
    var p := s[..|s| - |kept|];
    assert s == p + kept;
    assert s + t == p + (kept + t);
    NewestOfSuffix(k, p, kept + t);
  }

  /** One element at a time: trimming after the first element and again at
      the end is trimming once. */
  lemma NewestStep(k: nat, c: seq<byte>, items: seq<byte>)
    requires |items| > 0
    ensures Newest(k, Newest(k, c + [items[0]]) + items[1..]) == Newest(k, c + items)
  {
    NewestAbsorbs(k, c + [items[0]], items[1..]);
    assert c + items == (c + [items[0]]) + items[1..];
  }

  /** Any number of corrected writes keeps the newest `fixedSize - 1`
      elements of the unread data followed by everything written. */
  lemma {:induction false} WriteEachFixedKeepsNewest(b: Buffer, items: seq<byte>)
    requires Tracked(b)
    ensures Contents(WriteEachFixed(b, items)) == Newest(b.fixedSize - 1, Contents(b) + items)
    decreases |items|
  {
    var k := b.fixedSize - 1;
    if |items| == 0 {
      assert Contents(b) + items == Contents(b);
      assert |Contents(b)| <= k;
    } else {
      var b1 := WriteFixed(b, items[0]);
      WriteFixedKeepsNewest(b, items[0]);
      WriteEachFixedKeepsNewest(b1, items[1..]);
      NewestStep(k, Contents(b), items);
    }
  }

  /** Overrunning a cleared buffer with corrected writes keeps the newest
      `fixedSize - 1` elements written, in order. */
  lemma OverrunAfterClearKeepsNewest(b: Buffer, items: seq<byte>)
    requires Valid(b)
    ensures Contents(WriteEachFixed(Clear(b), items)) == Newest(b.fixedSize - 1, items)
  {
    var c := Clear(b);
    EmptyAndFullMeaning(c);
    WriteEachFixedKeepsNewest(c, items);
    assert Contents(c) + items == items;
  }
}
