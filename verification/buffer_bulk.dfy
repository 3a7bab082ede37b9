/** The NUL-terminated bulk `write(items)` of src/mesh/CircularBuffer.h:
    where its copy loop puts each byte, when its overrun test fires, and what
    that means for the unread data. */
module BulkWrite {
  import opened Common
  import opened CircularBuffer
  import BufferFifo

  // ---------------------------------------------------------------------
  // The copy loop

  /** A slot no remaining iteration aims at keeps its old byte. */
  lemma {:induction false} FillUntouched(storage: seq<byte>, size: nat, head: nat, tail: nat,
                                         payload: seq<byte>, count: nat, maxed: bool, q: nat)
    requires size > 0 && |storage| == size + 1 && count <= |payload| && q <= size
    requires forall c :: count <= c < |payload| ==> Pos(head, c, size) != q
    ensures Fill(storage, size, head, tail, payload, count, maxed).0[q] == storage[q]
    decreases |payload| - count
  {
    if count < |payload| {
      var pos := Pos(head, count, size);
      FillUntouched(storage[pos := payload[count]], size, head, tail, payload, count + 1,
                    maxed || Overruns(size, tail, pos), q);
    }
  }

  /** Each of the last `size` iterations leaves its byte in place: no later
      iteration comes back to the same slot. */
  lemma {:induction false} FillWritten(storage: seq<byte>, size: nat, head: nat, tail: nat,
                                       payload: seq<byte>, count: nat, maxed: bool, c: nat)
    requires size > 0 && |storage| == size + 1 && count <= c < |payload|
    requires |payload| < c + size
    ensures Fill(storage, size, head, tail, payload, count, maxed).0[Pos(head, c, size)] == payload[c]
    decreases |payload| - count
  {
    var pos := Pos(head, count, size);
    var next := storage[pos := payload[count]];
    var flag := maxed || Overruns(size, tail, pos);
    if count == c {
      forall c' | count + 1 <= c' < |payload|
        ensures Pos(head, c', size) != pos
      {
        ModDistinct(head, c, c', size);
      }
      FillUntouched(next, size, head, tail, payload, count + 1, flag, pos);
    } else {
      FillWritten(next, size, head, tail, payload, count + 1, flag, c);
    }
  }

  /** The loop's flag ends up true exactly when it started true or some
      iteration overran. */
  lemma {:induction false} FillFlag(storage: seq<byte>, size: nat, head: nat, tail: nat,
                                    payload: seq<byte>, count: nat, maxed: bool)
    requires size > 0 && |storage| == size + 1 && count <= |payload|
    ensures Fill(storage, size, head, tail, payload, count, maxed).1 <==>
      (maxed || exists c :: count <= c < |payload| && Overruns(size, tail, Pos(head, c, size)))
    decreases |payload| - count
  {
    if count < |payload| {
      var pos := Pos(head, count, size);
      FillFlag(storage[pos := payload[count]], size, head, tail, payload, count + 1,
               maxed || Overruns(size, tail, pos));
    }
  }

  // ---------------------------------------------------------------------
  // Positions relative to the unread data

  /** Writing position `c` of a bulk write is unread position `Count + c`. */
  lemma PosIsSlot(b: Buffer, c: nat)
    requires WellFormed(b) && Count(b) + c < b.fixedSize
    ensures Pos(b.head, c, b.fixedSize) == Slot(b, Count(b) + c)
  {
    ModNear(b.head + c, b.fixedSize);
  }

  /** Below capacity, the overrun test can only fire on the iteration that
      brings the unread count to `fixedSize - 1`. */
  lemma OverrunOnlyAtCapacity(b: Buffer, c: nat)
    requires WellFormed(b) && Count(b) + c <= b.fixedSize - 2
    requires Overruns(b.fixedSize, b.tail, Pos(b.head, c, b.fixedSize))
    ensures Count(b) + c == b.fixedSize - 2
  {
    PosIsSlot(b, c);
    var q := Slot(b, Count(b) + c);
    ModNear(q + 1, b.fixedSize);
  }

  // ---------------------------------------------------------------------
  // Effect on the unread data

  /** What a non-empty bulk write leaves behind, in terms of its copy loop:
      the new `head`, the new `tail`, and the loop's bytes everywhere except
      at the new `head`, which holds the terminator. */
  lemma WriteAllUnfold(b: Buffer, items: seq<byte>)
    requires Valid(b) && EndItem in items && 0 < |CString(items)| < 0x1_0000
    ensures var n := |CString(items)|;
      var r := WriteAll(b, items);
      var filled := Fill(b.storage, b.fixedSize, b.head, b.tail, CString(items), 0, b.maxed);
      && r.head == (b.head + n) % b.fixedSize
      && r.tail == (if filled.1 then (b.head + n + 1) % b.fixedSize else b.tail)
      && forall q :: 0 <= q < b.fixedSize && q != r.head ==> r.storage[q] == filled.0[q]
  {
    WriteAllSentinel(b.head, |CString(items)|, b.fixedSize);
  }

  /** Below capacity the overrun flag, if it fires at all, fires on the last
      byte, which sends `tail` back to where it was. */
  lemma WriteAllAppendsKeepsTail(b: Buffer, items: seq<byte>)
    requires Valid(b) && EndItem in items
    requires 0 < |CString(items)| && Count(b) + |CString(items)| <= b.fixedSize - 1
    ensures WriteAll(b, items).tail == b.tail
  {
    var payload := CString(items);
    var n := |payload|;
    var size := b.fixedSize;
    var filled := Fill(b.storage, size, b.head, b.tail, payload, 0, b.maxed);
    WriteAllUnfold(b, items);
    FillFlag(b.storage, size, b.head, b.tail, payload, 0, b.maxed);
    if filled.1 {
      assert !b.maxed;
      var c :| 0 <= c < n && Overruns(size, b.tail, Pos(b.head, c, size));
      OverrunOnlyAtCapacity(b, c);
      ModNear(b.head + n + 1, size);
    }
  }

  /** Within the effective capacity, a non-empty bulk write appends its
      payload (the bytes before the terminator) to the unread data. */
  lemma WriteAllAppends(b: Buffer, items: seq<byte>)
    requires Valid(b) && EndItem in items
    requires 0 < |CString(items)| && Count(b) + |CString(items)| <= b.fixedSize - 1
    ensures Contents(WriteAll(b, items)) == Contents(b) + CString(items)
    ensures WriteAll(b, items).tail == b.tail
  {
    var payload := CString(items);
    var n := |payload|;
    var size := b.fixedSize;
    var k := Count(b);
    var r := WriteAll(b, items);
    WriteAllUnfold(b, items);
    WriteAllAppendsKeepsTail(b, items);
    PosIsSlot(b, n);
    assert r.head == Slot(b, k + n);
    assert Count(r) == k + n;
    forall i | 0 <= i < k + n
      ensures Contents(r)[i] == (Contents(b) + payload)[i]
    {
      AppendedElement(b, items, i);
    }
  }

  lemma AppendedElement(b: Buffer, items: seq<byte>, i: nat)
    requires Valid(b) && EndItem in items
    requires 0 < |CString(items)| && Count(b) + |CString(items)| <= b.fixedSize - 1
    requires WriteAll(b, items).tail == b.tail
    requires i < Count(b) + |CString(items)|
    ensures WriteAll(b, items).storage[Slot(b, i)] == (Contents(b) + CString(items))[i]
  {
    var payload := CString(items);
    var n := |payload|;
    var size := b.fixedSize;
    var k := Count(b);
    var r := WriteAll(b, items);
    WriteAllUnfold(b, items);
    PosIsSlot(b, n);
    assert Slot(b, i) != r.head;
    if i < k {
      forall c | 0 <= c < n
        ensures Pos(b.head, c, size) != Slot(b, i)
      {
        PosIsSlot(b, c);
      }
      FillUntouched(b.storage, size, b.head, b.tail, payload, 0, b.maxed, Slot(b, i));
    } else {
      PosIsSlot(b, i - k);
      FillWritten(b.storage, size, b.head, b.tail, payload, 0, b.maxed, i - k);
    }
  }

  /** A payload of at least `fixedSize` bytes always trips the overrun test. */
  lemma LongPayloadOverruns(b: Buffer, items: seq<byte>)
    requires Valid(b) && EndItem in items
    requires b.fixedSize <= |CString(items)| < 0x1_0000
    ensures Fill(b.storage, b.fixedSize, b.head, b.tail, CString(items), 0, b.maxed).1
  {
    var size := b.fixedSize;
    var h := b.head;
    var t := b.tail;
    var q := if t == 0 || t == 1 then size - 1 else t - 2;
    ModNear(q + 1, size);
    assert Overruns(size, t, q);
    var c := if q >= h then q - h else q + size - h;
    ModNear(h + c, size);
    assert Pos(h, c, size) == q;
    FillFlag(b.storage, size, h, t, CString(items), 0, b.maxed);
  }

  /** A payload of at least `fixedSize` bytes leaves exactly its newest
      `fixedSize - 1` bytes unread, whatever was there before. */
  lemma WriteAllKeepsNewest(b: Buffer, items: seq<byte>)
    requires Valid(b) && EndItem in items
    requires b.fixedSize <= |CString(items)| < 0x1_0000
    ensures Contents(WriteAll(b, items))
         == CString(items)[|CString(items)| - (b.fixedSize - 1)..]
  {
    var payload := CString(items);
    var n := |payload|;
    var size := b.fixedSize;
    var h := b.head;
    var r := WriteAll(b, items);
    WriteAllUnfold(b, items);
    LongPayloadOverruns(b, items);
    ModAddSmall(h + n, 1, size);
    assert Count(r) == size - 1;
    forall i | 0 <= i < size - 1
      ensures Contents(r)[i] == payload[n - (size - 1) + i]
    {
      NewestElement(b, items, i);
    }
  }

  lemma NewestElement(b: Buffer, items: seq<byte>, i: nat)
    requires Valid(b) && EndItem in items
    requires b.fixedSize <= |CString(items)| < 0x1_0000
    requires i < b.fixedSize - 1
    ensures var r := WriteAll(b, items);
      r.storage[Slot(r, i)] == CString(items)[|CString(items)| - (b.fixedSize - 1) + i]
  {
    var payload := CString(items);
    var n := |payload|;
    var size := b.fixedSize;
    var h := b.head;
    var r := WriteAll(b, items);
    WriteAllUnfold(b, items);
    LongPayloadOverruns(b, items);
    ModAddSmall(h + n, 1, size);
    var w := n - (size - 1) + i;
    ModAddSmall(h + n + 1, i, size);
    ModAddPeriod(h + w, size);
    assert Slot(r, i) == Pos(h, w, size);
    assert Slot(r, i) != r.head;
    FillWritten(b.storage, size, h, b.tail, payload, 0, b.maxed, w);
  }

  // ---------------------------------------------------------------------
  // Overrunning data already in the buffer

  /** At capacity, `maxed` is set or `tail` is 0.  The bulk write's overrun
      test covers a full buffer with `tail == 0` that the single write's
      `int` comparison leaves unmarked.  Every write, `clear`, `consume`,
      zero-copy `consume_block` and non-empty copy re-establishes or keeps
      it (the lemmas below).  Four calls can break it, each by clearing
      `maxed` while leaving `Count == fixedSize - 1` and `tail != 0`: a
      zero-length copying `consume_block` on a full buffer,
      `consume_line(line, 0)` on a full buffer, and the two slips of
      `consume_line` (`LineConsume.TruncationSlip` and
      `LineConsume.StaleSpliceSlip`). */
  predicate CapacityFlagged(b: Buffer)
    requires WellFormed(b)
  {
    Count(b) == b.fixedSize - 1 ==> b.maxed || b.tail == 0
  }

  /** `head` stands `Count` slots after `tail`. */
  lemma HeadAfterTail(b: Buffer, d: nat)
    requires WellFormed(b)
    ensures (b.head + d) % b.fixedSize == (b.tail + Count(b) + d) % b.fixedSize
  {
    if b.head < b.tail {
      ModAddPeriod(b.head + d, b.fixedSize);
    }
  }

  /** A bulk write that takes the unread count past `fixedSize - 1` trips
      the overrun test, unless `maxed` was lost at capacity. */
  lemma OverrunFires(b: Buffer, items: seq<byte>)
    requires Valid(b) && EndItem in items && 0 < |CString(items)| < 0x1_0000
    requires Count(b) + |CString(items)| >= b.fixedSize
    requires CapacityFlagged(b) || b.fixedSize <= |CString(items)|
    ensures Fill(b.storage, b.fixedSize, b.head, b.tail, CString(items), 0, b.maxed).1
  {
    var size := b.fixedSize;
    var k := Count(b);
    if size <= |CString(items)| {
      LongPayloadOverruns(b, items);
    } else if !b.maxed {
      var c: nat := if b.tail == 0 then size - 1 - k else size - 2 - k;
      PosIsSlot(b, c);
      var q := Pos(b.head, c, size);
      if b.tail != 0 {
        ModNear(q + 1, size);
      }
      assert Overruns(size, b.tail, q);
      FillFlag(b.storage, size, b.head, b.tail, CString(items), 0, b.maxed);
    }
  }

  /** Slot arithmetic of an overrun, for an element that comes from the old
      unread data: it sits where the new `tail` plus `i` points, and no
      iteration of the copy loop aims at it. */
  lemma OverrunOldSlot(b: Buffer, n: nat, i: nat)
    requires WellFormed(b) && 0 < n && i < b.fixedSize - 1
    requires Count(b) + n >= b.fixedSize && Count(b) + n - (b.fixedSize - 1) + i < Count(b)
    ensures var j := Count(b) + n - (b.fixedSize - 1) + i;
      && (b.head + n + 1 + i) % b.fixedSize == Slot(b, j)
      && forall c :: 0 <= c < n ==> Pos(b.head, c, b.fixedSize) != Slot(b, j)
  {
    var size := b.fixedSize;
    var k := Count(b);
    var j := k + n - (size - 1) + i;
    HeadAfterTail(b, n + 1 + i);
    assert b.tail + k + n + 1 + i == b.tail + j + size;
    ModAddPeriod(b.tail + j, size);
    ModNear(b.tail + j, size);
    forall c | 0 <= c < n
      ensures Pos(b.head, c, size) != Slot(b, j)
    {
      HeadAfterTail(b, c);
      ModDistinct(b.tail, j, k + c, size);
    }
  }

  /** After an overrun the new `tail` is one past the new `head`, so the
      buffer holds `fixedSize - 1` elements and element `i` sits at
      `head + n + 1 + i`, never on the new `head`. */
  lemma OverrunSlot(r: Buffer, h: nat, n: nat, i: nat)
    requires WellFormed(r) && h < r.fixedSize && i < r.fixedSize - 1
    requires r.head == (h + n) % r.fixedSize && r.tail == (h + n + 1) % r.fixedSize
    ensures Count(r) == r.fixedSize - 1
    ensures Slot(r, i) == (h + n + 1 + i) % r.fixedSize && Slot(r, i) != r.head
  {
    ModAddSmall(h + n, 1, r.fixedSize);
    ModAddSmall(h + n + 1, i, r.fixedSize);
    ModDistinct(h + n, 0, 1 + i, r.fixedSize);
  }

  /** After an overrunning bulk write, unread element `i` is element
      `Count + n - (fixedSize - 1) + i` of the old unread data followed by
      the payload. */
  lemma OverrunElement(b: Buffer, items: seq<byte>, i: nat)
    requires Valid(b) && EndItem in items && 0 < |CString(items)| < 0x1_0000
    requires Count(b) + |CString(items)| >= b.fixedSize
    requires Fill(b.storage, b.fixedSize, b.head, b.tail, CString(items), 0, b.maxed).1
    requires i < b.fixedSize - 1
    ensures var r := WriteAll(b, items);
      r.storage[Slot(r, i)]
        == (Contents(b) + CString(items))[Count(b) + |CString(items)| - (b.fixedSize - 1) + i]
  {
    var payload := CString(items);
    var n := |payload|;
    var size := b.fixedSize;
    var h := b.head;
    var k := Count(b);
    var r := WriteAll(b, items);
    WriteAllUnfold(b, items);
    OverrunSlot(r, h, n, i);
    var q := Slot(r, i);
    var j := k + n - (size - 1) + i;
    if j >= k {
      var c := j - k;
      assert h + c + size == h + n + 1 + i;
      ModAddPeriod(h + c, size);
      FillWritten(b.storage, size, h, b.tail, payload, 0, b.maxed, c);
    } else {
      OverrunOldSlot(b, n, i);
      FillUntouched(b.storage, size, h, b.tail, payload, 0, b.maxed, q);
    }
  }

  /** An overrunning bulk write leaves exactly the last `fixedSize - 1`
      elements of the old unread data followed by the payload. */
  lemma OverrunKeepsSuffix(b: Buffer, items: seq<byte>)
    requires Valid(b) && EndItem in items && 0 < |CString(items)| < 0x1_0000
    requires Count(b) + |CString(items)| >= b.fixedSize
    requires Fill(b.storage, b.fixedSize, b.head, b.tail, CString(items), 0, b.maxed).1
    ensures Contents(WriteAll(b, items))
         == (Contents(b) + CString(items))[Count(b) + |CString(items)| - (b.fixedSize - 1)..]
  {
    var s := Contents(b) + CString(items);
    var m := Count(b) + |CString(items)| - (b.fixedSize - 1);
    var r := WriteAll(b, items);
    WriteAllUnfold(b, items);
    OverrunSlot(r, b.head, |CString(items)|, 0);
    forall i | 0 <= i < b.fixedSize - 1
      ensures Contents(r)[i] == s[m + i]
    {
      OverrunElement(b, items, i);
    }
  }

  /** Every non-empty bulk write leaves the newest `fixedSize - 1` elements
      of the old unread data followed by the payload: all of it within
      capacity, and on overrun the oldest elements are dropped, old data
      first. */
  lemma WriteAllKeepsNewestAll(b: Buffer, items: seq<byte>)
    requires Valid(b) && EndItem in items && 0 < |CString(items)| < 0x1_0000
    requires CapacityFlagged(b) || b.fixedSize <= |CString(items)|
    ensures Contents(WriteAll(b, items))
         == BufferFifo.Newest(b.fixedSize - 1, Contents(b) + CString(items))
  {
    var s := Contents(b) + CString(items);
    var k := b.fixedSize - 1;
    if |s| <= k {
      WriteAllAppends(b, items);
      assert BufferFifo.Newest(k, s) == s;
    } else {
      var n := |CString(items)|;
      assert |s| == Count(b) + n;
      OverrunFires(b, items);
      OverrunKeepsSuffix(b, items);
      var t := BufferFifo.Newest(k, s);
      assert |t| == k;
      assert t == s[Count(b) + n - k..];
    }
  }

  /** One byte written where `head + 1 == tail` with `maxed` clear: the
      overrun test looks one slot further on, so `head` lands on `tail`. */
  lemma UnflaggedWriteOntoTail(z: Buffer, x: byte)
    requires Valid(z) && !z.maxed && z.head + 1 == z.tail && x != EndItem
    ensures Contents(WriteAll(z, [x, EndItem])) == []
  {
    assert CString([x, EndItem]) == [x] by {
      assert [x, EndItem][1..] == [EndItem];
    }
    ModBelow(z.tail, z.fixedSize);
    ModBelow(z.head, z.fixedSize);
    assert !Overruns(z.fixedSize, z.tail, Pos(z.head, 0, z.fixedSize));
    FillFlag(z.storage, z.fixedSize, z.head, z.tail, [x], 0, z.maxed);
    ModNear(z.head + 1, z.fixedSize);
  }

  /** Outside `CapacityFlagged` a short overrun loses everything: after a
      zero-length copying `consume_block` on a full buffer, writing one more
      byte moves `head` onto `tail`. */
  lemma ZeroConsumeThenWriteAllLosesAll(b: Buffer, x: byte)
    requires Valid(b) && Full(b) && x != EndItem
    ensures var z := ConsumeInto(b, 0).0;
      && Contents(z) == Contents(b) && !CapacityFlagged(z)
      && Contents(WriteAll(z, [x, EndItem])) == []
  {
    var z := ConsumeInto(b, 0).0;
    ModBelow(b.tail, b.fixedSize);
    assert z == b.(maxed := false);
    UnflaggedWriteOntoTail(z, x);
  }

  /** A state whose `maxed` was just recomputed as `head == tail - 1` is
      flagged: at capacity with `tail != 0` that comparison holds. */
  lemma FlaggedByIndexTest(r: Buffer)
    requires WellFormed(r) && r.maxed == (r.head + 1 == r.tail)
    ensures CapacityFlagged(r)
  {
    BufferFifo.AtCapacity(r);
  }

  /** `write(item)` recomputes `maxed` from the indices, so it re-establishes
      the flag whatever state it starts from. */
  lemma WriteKeepsFlagged(b: Buffer, item: byte)
    requires Valid(b)
    ensures CapacityFlagged(Write(b, item))
  {
    FlaggedByIndexTest(Write(b, item));
  }

  /** So does the bulk write. */
  lemma WriteAllKeepsFlagged(b: Buffer, items: seq<byte>)
    requires Valid(b) && EndItem in items && |CString(items)| < 0x1_0000
    ensures CapacityFlagged(WriteAll(b, items))
  {
    FlaggedByIndexTest(WriteAll(b, items));
  }

  /** `consume()` either changes nothing on an empty buffer or takes the
      count below capacity. */
  lemma ConsumeKeepsFlagged(b: Buffer)
    requires Valid(b)
    ensures CapacityFlagged(Consume(b).0)
  {
    BufferFifo.ConsumeTakesOldest(b);
  }

  /** The zero-copy `consume_block()` takes the whole first run, which is
      never empty on a non-empty buffer. */
  lemma ConsumeBlockKeepsFlagged(b: Buffer)
    requires Valid(b)
    ensures CapacityFlagged(ConsumeBlock(b).0)
  {
    BufferFifo.ConsumeBlockTakesPrefix(b);
  }

  /** The copying `consume_block` keeps the flag when it copies something or
      `maxed` was already clear; `ZeroConsumeThenWriteAllLosesAll` is the
      remaining case. */
  lemma ConsumeIntoKeepsFlagged(b: Buffer, blockSize: nat)
    requires Valid(b) && blockSize < 0x1_0000
    requires 0 < blockSize || (CapacityFlagged(b) && !Full(b))
    ensures CapacityFlagged(ConsumeInto(b, blockSize).0)
  {
    var (r, copied) := ConsumeInto(b, blockSize);
    BufferFifo.ConsumeIntoTakesPrefix(b, blockSize);
    if |copied| == 0 && !Empty(b) {
      ModBelow(b.tail, b.fixedSize);
      assert r.tail == b.tail;
    }
  }

  /** `clear()` empties the buffer. */
  lemma ClearKeepsFlagged(b: Buffer)
    requires Valid(b)
    ensures CapacityFlagged(Clear(b))
  {
  }

  /** Both halves of `clear_if_empty()` keep the flag: the first leaves the
      indices alone, the second only resets an empty buffer. */
  lemma ClearIfEmptyKeepsFlagged(b: Buffer)
    requires Valid(b) && CapacityFlagged(b)
    ensures CapacityFlagged(RequestClear(b))
    ensures CapacityFlagged(ApplyClear(b))
    ensures CapacityFlagged(ClearIfEmpty(b))
  {
  }

  // ---------------------------------------------------------------------
  // writeF

  /** Appending a terminator does not change the C string. */
  lemma {:induction false} CStringOfTerminated(s: seq<byte>)
    ensures CString(s + [EndItem]) == CString(s)
    decreases |s|
  {
    if |s| > 0 && s[0] != EndItem {
      assert (s + [EndItem])[1..] == s[1..] + [EndItem];
      CStringOfTerminated(s[1..]);
    }
  }

  /** `writeF` with a rendering shorter than 600 bytes bulk-writes that text
      up to its first NUL: the buffer then holds the newest `fixedSize - 1`
      bytes of the old unread data followed by the text. */
  lemma WriteFKeepsNewest(b: Buffer, rendered: seq<byte>)
    requires Valid(b) && |rendered| < 600 && 0 < |CString(rendered)|
    requires CapacityFlagged(b) || b.fixedSize <= |CString(rendered)|
    ensures WriteF(b, rendered).Some?
    ensures Contents(WriteF(b, rendered).value)
         == BufferFifo.Newest(b.fixedSize - 1, Contents(b) + CString(rendered))
  {
    CStringOfTerminated(rendered);
    WriteAllKeepsNewestAll(b, rendered + [EndItem]);
  }

  /** An empty bulk write (`items[0] == 0`) still stores the terminator at
      slot 1, whatever `head` is: if slot 1 holds an unread element, that
      element becomes 0. */
  lemma EmptyWriteAllClobbersSlotOne(b: Buffer, items: seq<byte>, i: nat)
    requires Valid(b) && EndItem in items && CString(items) == []
    requires i < Count(b) && Slot(b, i) == 1
    ensures Contents(WriteAll(b, items)) == Contents(b)[i := EndItem]
  {
    var r := WriteAll(b, items);
    WriteAllSentinel(b.head, 0, b.fixedSize);
    FillFlag(b.storage, b.fixedSize, b.head, b.tail, [], 0, b.maxed);
    ModNear(b.head + 1, b.fixedSize);
    assert r.tail == b.tail && r.head == b.head;
    assert r.storage == b.storage[1 := EndItem];
  }

  /** A concrete instance: after `write("ab")` into a cleared buffer of
      capacity 4, `write("")` turns the unread "ab" into "a" followed by 0. */
  lemma EmptyWriteAllExample()
    ensures var b0 := Buffer([0, 0, 0, 0, 0], 4, 0, 0, false, false);
      var b1 := WriteAll(b0, [97, 98, 0]);
      && Contents(b1) == [97, 98]
      && Contents(WriteAll(b1, [0])) == [97, 0]
  {
    var b0 := Buffer([0, 0, 0, 0, 0], 4, 0, 0, false, false);
    assert CString([97, 98, 0]) == [97, 98] by {
      assert [97, 98, 0][1..] == [98, 0];
      assert [98, 0][1..] == [0];
    }
    WriteAllAppends(b0, [97, 98, 0]);
    var b1 := WriteAll(b0, [97, 98, 0]);
    assert Slot(b1, 1) == 1;
    EmptyWriteAllClobbersSlotOne(b1, [0], 1);
  }

  // ---------------------------------------------------------------------
  // The evidently intended bulk write

  /** `write(items)` with the terminator placed after the last element
      actually written, i.e. at `head` when nothing was written. */
  function WriteAllFixed(b: Buffer, items: seq<byte>): (r: Buffer)
    requires Valid(b)
    requires EndItem in items && |CString(items)| < 0x1_0000
    ensures Valid(r) && r.fixedSize == b.fixedSize
  {
    var payload := CString(items);
    var count := |payload|;
    var filled := Fill(b.storage, b.fixedSize, b.head, b.tail, payload, 0, b.maxed);
    var last := if count == 0 then b.head else Pos(b.head, count - 1, b.fixedSize) + 1;
    var storage := filled.0[last := EndItem];
    var tail := if filled.1 then (b.head + count + 1) % b.fixedSize else b.tail;
    var head := (b.head + count) % b.fixedSize;
    WriteAllSentinel(b.head, count, b.fixedSize);
    Buffer(storage, b.fixedSize, head, tail, head == tail - 1, false)
  }

  /** With the terminator placed after the last element written, every bulk
      write within the effective capacity appends its payload, the empty one
      included. */
  lemma WriteAllFixedAppends(b: Buffer, items: seq<byte>)
    requires Valid(b) && EndItem in items
    requires Count(b) + |CString(items)| <= b.fixedSize - 1
    ensures Contents(WriteAllFixed(b, items)) == Contents(b) + CString(items)
  {
    if |CString(items)| > 0 {
      WriteAllAppends(b, items);
      assert WriteAllFixed(b, items) == WriteAll(b, items);
    } else {
      var r := WriteAllFixed(b, items);
      WriteAllSentinel(b.head, 0, b.fixedSize);
      FillFlag(b.storage, b.fixedSize, b.head, b.tail, [], 0, b.maxed);
      ModNear(b.head + 1, b.fixedSize);
      assert r.tail == b.tail && r.head == b.head;
      assert r.storage == b.storage[b.head := EndItem];
      forall i | 0 <= i < Count(b)
        ensures Contents(r)[i] == Contents(b)[i]
      {
        assert Slot(b, i) != b.head;
      }
    }
  }
}
