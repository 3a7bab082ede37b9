/** The ring buffer of src/mesh/CircularBuffer.h as an immutable state record
    with one pure transition per public operation.

    Storage has `fixedSize + 1` slots; `head` is the next write position,
    `tail` the oldest unread one, both modulo `fixedSize`.  The extra slot lets
    every write put an `EndItem` right after the newest element without ever
    touching slot 0, so the live data doubles as a NUL-terminated string.
    Every transition is atomic: the lock (or its absence on RP2040) is not
    modelled, except that the deferred clear is split at the point where a
    producer can interleave. */
module CircularBuffer {
  import opened Common

  datatype Buffer = Buffer(
    storage: seq<byte>,
    fixedSize: nat,
    head: nat,
    tail: nat,
    maxed: bool,
    willClearIfEmpty: bool)

  /** The shape every state has: 16-bit indices inside the logical range,
      one extra storage slot that only ever receives `EndItem`, and a
      non-zero `head` pointing at the trailing `EndItem`. */
  predicate WellFormed(b: Buffer)
  {
    && 2 <= b.fixedSize < 0x1_0000
    && |b.storage| == b.fixedSize + 1
    && b.head < b.fixedSize
    && b.tail < b.fixedSize
    && (b.head != 0 ==> b.storage[b.head] == EndItem)
    && b.storage[b.fixedSize] == EndItem
  }

  /** What every operation preserves: besides the shape, `maxed` is only ever
      set by `head == tail - 1` evaluated in `int`. */
  predicate Valid(b: Buffer)
  {
    WellFormed(b) && (b.maxed ==> b.head + 1 == b.tail)
  }

  // ---------------------------------------------------------------------
  // Abstract view: the unread elements, oldest first

  /** Number of unread elements: the distance from `tail` to `head`. */
  function Count(b: Buffer): (n: nat)
    requires WellFormed(b)
    ensures n < b.fixedSize
  {
    if b.tail <= b.head then b.head - b.tail else b.head + b.fixedSize - b.tail
  }

  /** Physical slot of the `i`-th unread element. */
  function Slot(b: Buffer, i: nat): (k: nat)
    requires WellFormed(b) && i < b.fixedSize
    ensures k < b.fixedSize
  {
    if b.tail + i < b.fixedSize then b.tail + i else b.tail + i - b.fixedSize
  }

  /** The unread elements in the order they were written. */
  function Contents(b: Buffer): (c: seq<byte>)
    requires WellFormed(b)
    ensures |c| == Count(b)
    ensures forall i :: 0 <= i < Count(b) ==> c[i] == b.storage[Slot(b, i)]
  {
    seq(Count(b), i requires 0 <= i < Count(b) => b.storage[Slot(b, i)])
  }

  // ---------------------------------------------------------------------
  // Construction and observers

  /** A fresh buffer.  The storage contents are whatever `raw` holds; the
      model only insists that the extra slot holds `EndItem`. */
  function Create(size: nat, raw: seq<byte>): (b: Buffer)
    requires 2 <= size < 0x1_0000
    requires |raw| == size + 1 && raw[size] == EndItem
    ensures Valid(b) && b.fixedSize == size
    ensures Contents(b) == [] && !b.maxed && !b.willClearIfEmpty
  {
    Buffer(raw, size, 0, 0, false, false)
  }

  predicate Empty(b: Buffer)
  {
    b.head == b.tail
  }

  predicate Full(b: Buffer)
  {
    b.maxed
  }

  /** `empty()` holds exactly when nothing is unread; `full()` only ever
      reports `fixedSize - 1` unread elements, never `fixedSize`. */
  lemma EmptyAndFullMeaning(b: Buffer)
    requires Valid(b)
    ensures Empty(b) <==> Contents(b) == []
    ensures Full(b) ==> |Contents(b)| == b.fixedSize - 1
    ensures !(Empty(b) && Full(b))
  {
    if Contents(b) == [] {
      assert Count(b) == 0;
    }
  }

  // ---------------------------------------------------------------------
  // Write path

  /** `write(item)`: store at `head`, terminate right after it, drop the
      oldest element when the buffer was marked full, then advance `head`. */
  function Write(b: Buffer, item: byte): (r: Buffer)
    requires Valid(b)
    ensures Valid(r) && r.fixedSize == b.fixedSize
    ensures r.storage[b.head] == item && r.storage[b.head + 1] == EndItem
    ensures !r.willClearIfEmpty
  {
    var storage := b.storage[b.head := item][b.head + 1 := EndItem];
    var tail := if b.maxed then (b.head + 2) % b.fixedSize else b.tail;
    var head := (b.head + 1) % b.fixedSize;
    ModNear(b.head + 1, b.fixedSize);
    ModNear(b.head + 2, b.fixedSize);
    Buffer(storage, b.fixedSize, head, tail, head == tail - 1, false)
  }

  /** Position of the `count`-th element of a bulk write starting at `head`. */
  function Pos(head: nat, count: nat, size: nat): (p: nat)
    requires size > 0
    ensures p < size
  {
    (head + count) % size
  }

  /** The overrun test evaluated after each element of a bulk write. */
  predicate Overruns(size: nat, tail: nat, pos: nat)
    requires size > 0
  {
    (pos + 1) % size == tail - 1 || (tail == 0 && pos == size - 1)
  }

  /** The copy loop of `write(items)`: element `count` of `payload` goes to
      `Pos(head, count)`; the flag becomes true once any position overruns. */
  function Fill(storage: seq<byte>, size: nat, head: nat, tail: nat,
                payload: seq<byte>, count: nat, maxed: bool): (r: (seq<byte>, bool))
    requires size > 0 && |storage| == size + 1 && count <= |payload|
    ensures |r.0| == |storage|
    ensures r.0[size] == storage[size]
    ensures maxed ==> r.1
    decreases |payload| - count
  {
    if count == |payload| then (storage, maxed)
    else
      var pos := Pos(head, count, size);
      Fill(storage[pos := payload[count]], size, head, tail, payload, count + 1,
           maxed || Overruns(size, tail, pos))
  }

  /** `write(items)` for a NUL-terminated `items`: copy the bytes before the
      terminator, terminate after the last one written, move `tail` just past
      the new `head` when an overrun was seen, then advance `head`.  The loop
      counter is 16 bits wide, so a longer payload would never terminate. */
  function WriteAll(b: Buffer, items: seq<byte>): (r: Buffer)
    requires Valid(b)
    requires EndItem in items && |CString(items)| < 0x1_0000
    ensures Valid(r) && r.fixedSize == b.fixedSize
    ensures r.head == (b.head + |CString(items)|) % b.fixedSize
    ensures !r.willClearIfEmpty
  {
    var payload := CString(items);
    var count := |payload|;
    var filled := Fill(b.storage, b.fixedSize, b.head, b.tail, payload, 0, b.maxed);
    var pos := if count == 0 then 0 else Pos(b.head, count - 1, b.fixedSize);
    var storage := filled.0[pos + 1 := EndItem];
    var tail := if filled.1 then (b.head + count + 1) % b.fixedSize else b.tail;
    var head := (b.head + count) % b.fixedSize;
    WriteAllSentinel(b.head, count, b.fixedSize);
    Buffer(storage, b.fixedSize, head, tail, head == tail - 1, false)
  }

  /** The terminator after the last element of a non-empty bulk write lands on
      the new `head`, or on the extra slot when the new `head` wraps to 0. */
  lemma WriteAllSentinel(head: nat, count: nat, size: nat)
    requires size > 1 && head < size
    ensures count > 0 ==>
      var pos := Pos(head, count - 1, size);
      var h := (head + count) % size;
      (h != 0 ==> pos + 1 == h) && (h == 0 ==> pos + 1 == size)
    ensures count == 0 ==> (head + count) % size == head
  {
    ModBelow(head, size);
    if count > 0 {
      ModAddSmall(head + count - 1, 1, size);
    }
  }

  /** `writeF`: the rendered text goes through the bulk write; text that
      does not fit the 600-byte scratch buffer trips the assertion. */
  function WriteF(b: Buffer, rendered: seq<byte>): (r: Option<Buffer>)
    requires Valid(b)
    ensures r.Some? <==> |rendered| < 600
    ensures r.Some? ==> Valid(r.value) && r.value == WriteAll(b, rendered + [EndItem])
  {
    if |rendered| < 600 then
      CStringBound(rendered + [EndItem]);
      Some(WriteAll(b, rendered + [EndItem]))
    else None
  }

  lemma CStringBound(s: seq<byte>)
    requires EndItem in s
    ensures |CString(s)| < |s|
  {
  }

  // ---------------------------------------------------------------------
  // Maintenance

  /** `clear()`: both indices to 0, slot 0 terminated, not full. */
  function Clear(b: Buffer): (r: Buffer)
    requires Valid(b)
    ensures Valid(r) && Contents(r) == [] && Empty(r) && !Full(r)
    ensures r.storage[0] == EndItem && r.head == 0 && r.tail == 0
  {
    b.(storage := b.storage[0 := EndItem], head := 0, tail := 0, maxed := false)
  }

  /** First half of `clear_if_empty()`: raise the latch (done before the
      lock is taken, so a producer may run between the two halves). */
  function RequestClear(b: Buffer): (r: Buffer)
    requires Valid(b)
    ensures Valid(r) && r.willClearIfEmpty
    ensures Contents(r) == Contents(b)
  {
    b.(willClearIfEmpty := true)
  }

  /** Second half of `clear_if_empty()`: reset only if still empty and the
      latch survived. */
  function ApplyClear(b: Buffer): (r: Buffer)
    requires Valid(b)
    ensures Valid(r)
    ensures Contents(r) == Contents(b)
    ensures Empty(b) && b.willClearIfEmpty ==> r.head == 0 && r.tail == 0 && !r.maxed
    ensures !(Empty(b) && b.willClearIfEmpty) ==> r == b
  {
    if Empty(b) && b.willClearIfEmpty then b.(head := 0, tail := 0, maxed := false)
    else b
  }

  /** `clear_if_empty()` with no producer running in between. */
  function ClearIfEmpty(b: Buffer): (r: Buffer)
    requires Valid(b)
    ensures Valid(r) && Contents(r) == Contents(b)
    ensures Empty(b) ==> r.head == 0 && r.tail == 0 && !r.maxed
    ensures !Empty(b) ==>
      r.head == b.head && r.tail == b.tail && r.storage == b.storage && r.maxed == b.maxed
  {
    ApplyClear(RequestClear(b))
  }

  // ---------------------------------------------------------------------
  // Consume path

  /** Unread data continues past the end of storage and resumes at slot 0. */
  predicate Wrapped(b: Buffer)
  {
    b.head <= b.tail && !Empty(b)
  }

  /** Length of the contiguous unread run that starts at `tail`. */
  function Consumable(b: Buffer): (n: nat)
    requires Valid(b)
    ensures b.tail + n <= b.fixedSize
    ensures n <= Count(b) && (n == 0 <==> Empty(b))
  {
    (if Wrapped(b) then b.fixedSize else b.head) - b.tail
  }

  /** `consume()`: the oldest element, or 0 and no change when empty. */
  function Consume(b: Buffer): (r: (Buffer, byte))
    requires Valid(b)
    ensures Valid(r.0)
    ensures Empty(b) ==> r == (b, EndItem)
    ensures !Empty(b) ==> r.1 == Contents(b)[0] && !r.0.maxed
  {
    if Empty(b) then (b, EndItem)
    else
      ModNear(b.tail + 1, b.fixedSize);
      (b.(tail := (b.tail + 1) % b.fixedSize, maxed := false), b.storage[b.tail])
  }

  /** Zero-copy `consume_block()`: the whole contiguous run from `tail`
      (its bytes stand for the returned address and length). */
  function ConsumeBlock(b: Buffer): (r: (Buffer, seq<byte>))
    requires Valid(b)
    ensures Valid(r.0) && !Full(r.0)
    ensures |r.1| == Consumable(b) && r.1 == b.storage[b.tail .. b.tail + |r.1|]
    ensures r.0.tail == (b.tail + |r.1|) % b.fixedSize
  {
    var consumable := Consumable(b);
    var tail := if Wrapped(b) then 0 else b.head;
    ModNear(b.tail + consumable, b.fixedSize);
    (b.(tail := tail, maxed := false), b.storage[b.tail .. b.tail + consumable])
  }

  /** Copying `consume_block(block, block_size)`: at most `blockSize`
      elements of the contiguous run, returned as the bytes copied. */
  function ConsumeInto(b: Buffer, blockSize: nat): (r: (Buffer, seq<byte>))
    requires Valid(b) && blockSize < 0x1_0000
    ensures Valid(r.0) && !Full(r.0)
    ensures |r.1| == Min(blockSize, Consumable(b))
    ensures r.1 == b.storage[b.tail .. b.tail + |r.1|]
    ensures r.0.tail == (b.tail + |r.1|) % b.fixedSize
  {
    var consumable := Consumable(b);
    var willConsume := Min(blockSize, consumable);
    var tail :=
      if blockSize < consumable then (b.tail + willConsume) % b.fixedSize
      else if Wrapped(b) then 0
      else b.head;
    ModNear(b.tail + consumable, b.fixedSize);
    ModNear(b.tail + willConsume, b.fixedSize);
    (b.(tail := tail, maxed := false), b.storage[b.tail .. b.tail + willConsume])
  }
}
