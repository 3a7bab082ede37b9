/** `CircularBuffer<char>::consume_line` of src/mesh/CircularBuffer.h: copy
    one newline-terminated line (or as much as fits) out of the buffer into a
    caller array and NUL-terminate it.  The model follows the code's three
    exits; `ConsumeLineFixed` is the same routine with its two wrap-related
    slips corrected, and the lemmas say where the two agree. */
module LineConsume {
  import opened Common
  import opened CircularBuffer
  import BufferFifo
  import BulkWrite

  // ---------------------------------------------------------------------
  // strchr over the storage

  /** No newline and no terminator in `s[i..j)`. */
  predicate NoStop(s: seq<byte>, i: nat, j: nat)
    requires i <= j <= |s|
  {
    forall k :: i <= k < j ==> s[k] != Newline && s[k] != EndItem
  }

  /** `strchr(&s[start], '\n')` as an index into `s`: the first newline from
      `start` on, unless a terminator (or the end of storage) comes first. */
  function StrChr(s: seq<byte>, start: nat): (r: Option<nat>)
    ensures r.Some? ==>
      start <= r.value < |s| && s[r.value] == Newline && NoStop(s, start, r.value)
    ensures r.None? ==>
      forall j :: start <= j < |s| && s[j] == Newline ==> !NoStop(s, start, j)
    decreases |s| - start
  {
    if start >= |s| then None
    else if s[start] == Newline then Some(start)
    else if s[start] == EndItem then None
    else StrChr(s, start + 1)
  }

  /** A newline reached before any terminator is found. */
  lemma {:induction false} StrChrFinds(s: seq<byte>, start: nat, e: nat)
    requires start <= e < |s| && s[e] == Newline && NoStop(s, start, e)
    ensures StrChr(s, start) == Some(e)
    decreases e - start
  {
    if start < e {
      StrChrFinds(s, start + 1, e);
    }
  }

  /** A terminator reached before any newline ends the search empty-handed. */
  lemma {:induction false} StrChrMisses(s: seq<byte>, start: nat, z: nat)
    requires start <= z < |s| && s[z] == EndItem
    requires forall k :: start <= k < z ==> s[k] != Newline
    ensures StrChr(s, start) == None
    decreases z - start
  {
    if start < z && s[start] != EndItem {
      StrChrMisses(s, start + 1, z);
    }
  }

  /** A search that passes a terminator has stopped before it. */
  lemma StrChrBefore(s: seq<byte>, start: nat, z: nat)
    requires start <= z < |s| && s[z] == EndItem
    requires StrChr(s, start).Some?
    ensures StrChr(s, start).value < z
  {
  }

  // ---------------------------------------------------------------------
  // consume_line

  /** What `consume_line(line, line_size)` leaves behind: the new buffer,
      the bytes it stored into `line` (ending with the NUL it adds), and its
      return value. */
  datatype Line = Line(buffer: Buffer, text: seq<byte>, length: nat)

  /** The routine as written.  `line` must have room for `lineSize + 1`
      bytes, since the NUL can land at index `lineSize`.  The code's
      test `consumable == will_consume`, with `will_consume` the smaller of
      the two, is `Consumable(b) <= lineSize`. */
  function ConsumeLine(b: Buffer, lineSize: nat): (r: Line)
    requires Valid(b) && lineSize < 0x1_0000
    ensures Valid(r.buffer) && !Full(r.buffer)
    ensures r.buffer.storage == b.storage && r.buffer.head == b.head
    ensures r.length <= lineSize && |r.text| == r.length + 1 && r.text[r.length] == EndItem
  {
    if StrChr(b.storage, b.tail).None? && Consumable(b) <= lineSize then
      WholeRunLine(b, lineSize)
    else
      PartialRunLine(b, lineSize)
  }

  /** First exit: the first run holds no newline and all of it fits, so it is
      copied whole; a wrapped buffer then continues with a scan from slot 0. */
  function WholeRunLine(b: Buffer, lineSize: nat): (r: Line)
    requires Valid(b) && Consumable(b) <= lineSize < 0x1_0000
    ensures Valid(r.buffer) && !Full(r.buffer)
    ensures r.buffer.storage == b.storage && r.buffer.head == b.head
    ensures r.length <= lineSize && |r.text| == r.length + 1 && r.text[r.length] == EndItem
  {
    var s := b.storage;
    var willConsume := Consumable(b);
    var first := s[b.tail .. b.tail + willConsume];
    if Wrapped(b) then
      match StrChr(s, 0)
      case Some(e) =>
        var extra := Min(U16(lineSize - willConsume), U16(e + 1));
        Line(b.(tail := extra % b.fixedSize, maxed := false),
             first + s[..extra] + [EndItem], willConsume + extra)
      case None =>
        Line(b.(tail := 0, maxed := false), first + [EndItem], willConsume)
    else
      Line(b.(tail := b.head, maxed := false), first + [EndItem], willConsume)
  }

  /** Second and third exits: a newline in the first run, or a first run
      longer than `lineSize`.  In the latter case `line` is already full, the
      second scan starts where the copy stopped and adds nothing, and the
      code picks `tail` among three formulas. */
  function PartialRunLine(b: Buffer, lineSize: nat): (r: Line)
    requires Valid(b) && lineSize < 0x1_0000
    requires StrChr(b.storage, b.tail).Some? || lineSize < Consumable(b)
    ensures Valid(r.buffer) && !Full(r.buffer)
    ensures r.buffer.storage == b.storage && r.buffer.head == b.head
    ensures r.length <= lineSize && |r.text| == r.length + 1 && r.text[r.length] == EndItem
  {
    var s := b.storage;
    var consumable := Consumable(b);
    var willConsume := Min(lineSize, consumable);
    var lineEnd := StrChr(s, b.tail);
    var writtenOut := if lineEnd.None? then willConsume else 0;
    var tailCopy := b.tail + writtenOut;
    var consumableNow := if lineEnd.None? then b.head else consumable;
    var willNow := if lineEnd.None? then Min(U16(lineSize - writtenOut), consumableNow)
                   else willConsume;
    var end := if lineEnd.None? then StrChr(s, tailCopy) else lineEnd;
    var lineExtra := if end.Some? then Min(willNow, U16(end.value - tailCopy + 1))
                     else willNow;
    assert tailCopy + lineExtra <= b.fixedSize;
    var tail :=
      if writtenOut + lineExtra <= consumableNow then (tailCopy + lineExtra) % b.fixedSize
      else if b.head <= tailCopy && !Empty(b) then
        (if end.None? then writtenOut + willNow else lineSize)
      else b.head;
    Line(b.(tail := tail, maxed := false),
         s[b.tail .. b.tail + writtenOut] + s[tailCopy .. tailCopy + lineExtra] + [EndItem],
         writtenOut + lineExtra)
  }

  /** The routine as evidently intended: `tail` always advances by what was
      copied, and the second run is only scanned when it is not empty. */
  function ConsumeLineFixed(b: Buffer, lineSize: nat): (r: Line)
    requires Valid(b) && lineSize < 0x1_0000
    ensures Valid(r.buffer) && !Full(r.buffer)
    ensures r.buffer.storage == b.storage && r.buffer.head == b.head
    ensures r.length <= lineSize && |r.text| == r.length + 1 && r.text[r.length] == EndItem
  {
    var s := b.storage;
    match StrChr(s, b.tail)
    case Some(e) =>
      var taken := Min(Min(lineSize, Consumable(b)), e - b.tail + 1);
      TakeLine(b, taken)
    case None =>
      if Consumable(b) <= lineSize && Wrapped(b) && b.head != 0 then
        match StrChr(s, 0)
        case Some(e) => SpliceLine(b, Min(lineSize - Consumable(b), e + 1))
        case None => TakeLine(b, Consumable(b))
      else
        TakeLine(b, Min(lineSize, Consumable(b)))
  }

  /** Copy the first `taken` bytes of the first run and advance past them. */
  function TakeLine(b: Buffer, taken: nat): (r: Line)
    requires Valid(b) && taken <= Consumable(b)
    ensures Valid(r.buffer) && !Full(r.buffer)
    ensures r.buffer.storage == b.storage && r.buffer.head == b.head
    ensures r.length == taken && |r.text| == taken + 1 && r.text[taken] == EndItem
  {
    Line(b.(tail := (b.tail + taken) % b.fixedSize, maxed := false),
         b.storage[b.tail .. b.tail + taken] + [EndItem], taken)
  }

  /** Copy the whole first run of a wrapped buffer and `extra` bytes from
      slot 0 on, and continue after them. */
  function SpliceLine(b: Buffer, extra: nat): (r: Line)
    requires Valid(b) && Wrapped(b) && extra <= b.head
    ensures Valid(r.buffer) && !Full(r.buffer)
    ensures r.buffer.storage == b.storage && r.buffer.head == b.head
    ensures r.length == Consumable(b) + extra && |r.text| == r.length + 1
    ensures r.text[r.length] == EndItem
  {
    Line(b.(tail := extra % b.fixedSize, maxed := false),
         b.storage[b.tail .. b.fixedSize] + b.storage[..extra] + [EndItem],
         Consumable(b) + extra)
  }

  // ---------------------------------------------------------------------
  // The intended routine takes a prefix of the unread data

  /** The first contiguous run is the head of the unread data. */
  lemma RunIsContents(b: Buffer, k: nat)
    requires Valid(b) && k <= Consumable(b)
    ensures b.storage[b.tail .. b.tail + k] == Contents(b)[..k]
  {
    forall i | 0 <= i < k
      ensures b.storage[b.tail + i] == Contents(b)[i]
    {
      assert Slot(b, i) == b.tail + i;
    }
  }

  /** In a wrapped buffer the unread data is the run up to the end of
      storage followed by the run from slot 0 up to `head`. */
  lemma WrappedContents(b: Buffer, k: nat)
    requires Valid(b) && Wrapped(b) && k <= b.head
    ensures b.storage[b.tail .. b.fixedSize] + b.storage[..k]
         == Contents(b)[..Consumable(b) + k]
  {
    var c := Consumable(b);
    RunIsContents(b, c);
    forall j | 0 <= j < k
      ensures b.storage[j] == Contents(b)[c + j]
    {
      assert Slot(b, c + j) == j;
    }
  }

  /** Taking from the first run removes a prefix of the unread data. */
  lemma TakeLineTakesPrefix(b: Buffer, taken: nat)
    requires Valid(b) && taken <= Consumable(b)
    ensures var r := TakeLine(b, taken);
      && r.text == Contents(b)[..taken] + [EndItem]
      && Contents(r.buffer) == Contents(b)[taken..]
  {
    RunIsContents(b, taken);
    BufferFifo.AdvanceTail(b, TakeLine(b, taken).buffer, taken);
  }

  /** Splicing the two runs removes a prefix of the unread data. */
  lemma SpliceLineTakesPrefix(b: Buffer, extra: nat)
    requires Valid(b) && Wrapped(b) && extra <= b.head
    ensures var r := SpliceLine(b, extra);
      && r.text == Contents(b)[..r.length] + [EndItem]
      && Contents(r.buffer) == Contents(b)[r.length..]
  {
    var c := Consumable(b);
    var r := SpliceLine(b, extra);
    WrappedContents(b, extra);
    assert c == b.fixedSize - b.tail && c + extra <= Count(b);
    ModNear(b.tail + c + extra, b.fixedSize);
    ModBelow(extra, b.fixedSize);
    assert r.buffer.tail == (b.tail + c + extra) % b.fixedSize;
    BufferFifo.AdvanceTail(b, r.buffer, c + extra);
  }

  /** Whatever path it takes, the intended routine returns the oldest unread
      bytes (at most `lineSize` of them) and removes exactly those: nothing
      is lost, repeated or invented. */
  lemma ConsumeLineFixedTakesPrefix(b: Buffer, lineSize: nat)
    requires Valid(b) && lineSize < 0x1_0000
    ensures var r := ConsumeLineFixed(b, lineSize);
      && r.length <= |Contents(b)|
      && r.text == Contents(b)[..r.length] + [EndItem]
      && Contents(r.buffer) == Contents(b)[r.length..]
  {
    var s := b.storage;
    match StrChr(s, b.tail)
    case Some(e) =>
      TakeLineTakesPrefix(b, Min(Min(lineSize, Consumable(b)), e - b.tail + 1));
    case None =>
      if Consumable(b) <= lineSize && Wrapped(b) && b.head != 0 {
        match StrChr(s, 0)
        case Some(e) =>
          StrChrBefore(s, 0, b.head);
          SpliceLineTakesPrefix(b, Min(lineSize - Consumable(b), e + 1));
        case None =>
          TakeLineTakesPrefix(b, Consumable(b));
      } else {
        TakeLineTakesPrefix(b, Min(lineSize, Consumable(b)));
      }
  }

  // ---------------------------------------------------------------------
  // Where the code as written agrees with the intended routine

  /** Wrapped, no newline in the first run, and a `lineSize` that cuts the
      first run short while exceeding `head`: the code then sets `tail` to
      the absolute value `lineSize` instead of `tail + lineSize`. */
  predicate TruncationSlip(b: Buffer, lineSize: nat)
    requires Valid(b)
  {
    Wrapped(b) && StrChr(b.storage, b.tail).None? && b.head < lineSize < Consumable(b)
  }

  /** Wrapped with `head == 0`, no newline in the first run, and room left in
      `line`: the code then scans slot 0, which holds no unread data. */
  predicate StaleSpliceSlip(b: Buffer, lineSize: nat)
    requires Valid(b)
  {
    Wrapped(b) && b.head == 0 && StrChr(b.storage, b.tail).None? && lineSize > Consumable(b)
  }

  /** A newline in the first run: the code takes through it (or up to
      `lineSize`), as intended. */
  lemma AgreesAtNewline(b: Buffer, lineSize: nat, e: nat)
    requires Valid(b) && lineSize < 0x1_0000 && StrChr(b.storage, b.tail) == Some(e)
    ensures PartialRunLine(b, lineSize)
         == TakeLine(b, Min(Min(lineSize, Consumable(b)), e - b.tail + 1))
  {
    var s := b.storage;
    StrChrBefore(s, b.tail, b.fixedSize);
    var taken := Min(Min(lineSize, Consumable(b)), e - b.tail + 1);
    assert U16(e - b.tail + 1) == e - b.tail + 1;
    assert s[b.tail .. b.tail] + s[b.tail .. b.tail + taken] == s[b.tail .. b.tail + taken];
  }

  /** A first run without newline cut short by `lineSize`, outside the
      truncation slip: `tail` advances by `lineSize`, as intended. */
  lemma AgreesWhenTruncating(b: Buffer, lineSize: nat)
    requires Valid(b) && StrChr(b.storage, b.tail).None? && lineSize < Consumable(b)
    requires !TruncationSlip(b, lineSize)
    ensures PartialRunLine(b, lineSize) == TakeLine(b, lineSize)
  {
    var s := b.storage;
    var tailCopy := b.tail + lineSize;
    assert U16(lineSize - lineSize) == 0;
    assert s[tailCopy .. tailCopy] == [];
    assert s[b.tail .. b.tail + lineSize] + [] == s[b.tail .. b.tail + lineSize];
  }

  /** A first run without newline that fits, outside the stale-splice slip:
      the code copies it whole and splices the second run, as intended. */
  lemma AgreesOnWholeRun(b: Buffer, lineSize: nat)
    requires Valid(b) && StrChr(b.storage, b.tail).None? && Consumable(b) <= lineSize < 0x1_0000
    requires !StaleSpliceSlip(b, lineSize)
    ensures WholeRunLine(b, lineSize) == ConsumeLineFixed(b, lineSize)
  {
    var s := b.storage;
    var c := Consumable(b);
    if Wrapped(b) && b.head != 0 {
      match StrChr(s, 0)
      case Some(e) =>
        StrChrBefore(s, 0, b.head);
      case None =>
        ModNear(b.tail + c, b.fixedSize);
    } else if Wrapped(b) {
      ModNear(b.tail + c, b.fixedSize);
      match StrChr(s, 0)
      case Some(e) =>
        assert U16(lineSize - c) == 0;
        assert s[..0] == [];
        ModBelow(0, b.fixedSize);
      case None =>
    } else {
      ModBelow(b.tail + c, b.fixedSize);
    }
  }

  /** Away from the two slips the code computes exactly the intended
      result. */
  lemma ConsumeLineAgrees(b: Buffer, lineSize: nat)
    requires Valid(b) && lineSize < 0x1_0000
    requires !TruncationSlip(b, lineSize) && !StaleSpliceSlip(b, lineSize)
    ensures ConsumeLine(b, lineSize) == ConsumeLineFixed(b, lineSize)
  {
    match StrChr(b.storage, b.tail)
    case Some(e) =>
      AgreesAtNewline(b, lineSize, e);
    case None =>
      if Consumable(b) <= lineSize {
        AgreesOnWholeRun(b, lineSize);
      } else {
        AgreesWhenTruncating(b, lineSize);
      }
  }

  /** Hence, away from the two slips, the code as written also returns the
      oldest unread bytes and removes exactly those. */
  lemma ConsumeLineTakesPrefix(b: Buffer, lineSize: nat)
    requires Valid(b) && lineSize < 0x1_0000
    requires !TruncationSlip(b, lineSize) && !StaleSpliceSlip(b, lineSize)
    ensures var r := ConsumeLine(b, lineSize);
      && r.text == Contents(b)[..r.length] + [EndItem]
      && Contents(r.buffer) == Contents(b)[r.length..]
  {
    ConsumeLineAgrees(b, lineSize);
    ConsumeLineFixedTakesPrefix(b, lineSize);
  }

  // ---------------------------------------------------------------------
  // The capacity flag across consume_line

  /** With room for at least one byte, the intended routine takes at least
      one byte of a non-empty buffer. */
  lemma ConsumeLineFixedProgress(b: Buffer, lineSize: nat)
    requires Valid(b) && 0 < lineSize < 0x1_0000 && !Empty(b)
    ensures ConsumeLineFixed(b, lineSize).length > 0
  {
  }

  /** The intended routine keeps `BulkWrite.CapacityFlagged` unless it is
      called with `lineSize == 0` on a full buffer: it either takes a byte
      or leaves `tail` where it was. */
  lemma ConsumeLineFixedKeepsFlagged(b: Buffer, lineSize: nat)
    requires Valid(b) && lineSize < 0x1_0000
    requires 0 < lineSize || (BulkWrite.CapacityFlagged(b) && !Full(b))
    ensures BulkWrite.CapacityFlagged(ConsumeLineFixed(b, lineSize).buffer)
  {
    var r := ConsumeLineFixed(b, lineSize);
    ConsumeLineFixedTakesPrefix(b, lineSize);
    if 0 < lineSize && !Empty(b) {
      ConsumeLineFixedProgress(b, lineSize);
    } else if !Empty(b) && Count(b) == b.fixedSize - 1 {
      BufferFifo.AtCapacity(b);
      BufferFifo.AtCapacity(r.buffer);
    }
  }

  /** Away from the two slips the code as written keeps it too. */
  lemma ConsumeLineKeepsFlagged(b: Buffer, lineSize: nat)
    requires Valid(b) && lineSize < 0x1_0000
    requires !TruncationSlip(b, lineSize) && !StaleSpliceSlip(b, lineSize)
    requires 0 < lineSize || (BulkWrite.CapacityFlagged(b) && !Full(b))
    ensures BulkWrite.CapacityFlagged(ConsumeLine(b, lineSize).buffer)
  {
    ConsumeLineAgrees(b, lineSize);
    ConsumeLineFixedKeepsFlagged(b, lineSize);
  }

  /** `consume_line(line, 0)` on a full buffer copies nothing but clears
      `maxed`, so the next one-byte bulk write moves `head` onto `tail` and
      loses all unread data. */
  lemma ZeroLineThenWriteAllLosesAll(b: Buffer, x: byte)
    requires Valid(b) && Full(b) && x != EndItem
    ensures var z := ConsumeLine(b, 0).buffer;
      && ConsumeLine(b, 0).text == [EndItem]
      && Contents(z) == Contents(b) && !BulkWrite.CapacityFlagged(z)
      && Contents(WriteAll(z, [x, EndItem])) == []
  {
    var z := ConsumeLine(b, 0).buffer;
    ModBelow(b.tail, b.fixedSize);
    assert z == b.(maxed := false);
    BulkWrite.UnflaggedWriteOntoTail(z, x);
  }

  // ---------------------------------------------------------------------
  // Line framing of the code as written

  /** On an empty buffer nothing is copied, `line` is the empty string and
      the buffer stays empty. */
  lemma ConsumeLineOnEmpty(b: Buffer, lineSize: nat)
    requires Valid(b) && lineSize < 0x1_0000 && Empty(b)
    ensures var r := ConsumeLine(b, lineSize);
      r.length == 0 && r.text == [EndItem] && r.buffer.tail == r.buffer.head
  {
    ModBelow(b.tail, b.fixedSize);
  }

  /** A newline within the first contiguous run and within `lineSize`, with no
      terminator before it: the line is copied exactly through the newline
      and `tail` moves just past it. */
  lemma ConsumeLineStopsAtNewline(b: Buffer, lineSize: nat, j: nat)
    requires Valid(b) && lineSize < 0x1_0000
    requires j < Consumable(b) && j < lineSize && Contents(b)[j] == Newline
    requires forall k :: 0 <= k < j ==> Contents(b)[k] != Newline && Contents(b)[k] != EndItem
    ensures var r := ConsumeLine(b, lineSize);
      && r.length == j + 1
      && r.text == Contents(b)[..j + 1] + [EndItem]
      && r.buffer.tail == (b.tail + j + 1) % b.fixedSize
      && Contents(r.buffer) == Contents(b)[j + 1..]
  {
    NewlineInRun(b, j);
    AgreesAtNewline(b, lineSize, b.tail + j);
    assert Min(Min(lineSize, Consumable(b)), j + 1) == j + 1;
    TakeLineTakesPrefix(b, j + 1);
  }

  /** A newline at offset `j` of the first run, with no terminator or newline
      before it, is where the code's scan stops. */
  lemma NewlineInRun(b: Buffer, j: nat)
    requires Valid(b) && j < Consumable(b) && Contents(b)[j] == Newline
    requires forall k :: 0 <= k < j ==> Contents(b)[k] != Newline && Contents(b)[k] != EndItem
    ensures StrChr(b.storage, b.tail) == Some(b.tail + j)
  {
    RunIsContents(b, Consumable(b));
    assert NoStop(b.storage, b.tail, b.tail + j) by {
      forall k | b.tail <= k < b.tail + j
        ensures b.storage[k] != Newline && b.storage[k] != EndItem
      {
        assert b.storage[k] == Contents(b)[k - b.tail];
      }
    }
    assert b.storage[b.tail + j] == Contents(b)[j];
    StrChrFinds(b.storage, b.tail, b.tail + j);
  }

  /** No newline in the first run, which is longer than `lineSize`: exactly
      `lineSize` bytes are copied and `tail` advances by `lineSize`, so the
      next call carries on with the rest of the line.  This holds when the
      buffer is not wrapped, or when `lineSize` does not exceed `head`. */
  lemma ConsumeLineTruncates(b: Buffer, lineSize: nat)
    requires Valid(b) && lineSize < Consumable(b)
    requires forall k :: 0 <= k < Consumable(b) ==> Contents(b)[k] != Newline
    requires !Wrapped(b) || lineSize <= b.head
    ensures var r := ConsumeLine(b, lineSize);
      && r.length == lineSize
      && r.text == Contents(b)[..lineSize] + [EndItem]
      && r.buffer.tail == b.tail + lineSize
      && Contents(r.buffer) == Contents(b)[lineSize..]
  {
    var c := Consumable(b);
    RunIsContents(b, c);
    forall k | b.tail <= k < b.tail + c
      ensures b.storage[k] != Newline
    {
      assert b.storage[k] == Contents(b)[k - b.tail];
    }
    StrChrMisses(b.storage, b.tail, b.tail + c);
    ModBelow(b.tail + lineSize, b.fixedSize);
    ConsumeLineTakesPrefix(b, lineSize);
  }

  /** The wrap splice: the first run holds no newline and fits, so the code
      restarts the scan at slot 0 and appends the second run up to and
      including its first newline (or as much as still fits). */
  lemma ConsumeLineSplices(b: Buffer, lineSize: nat, j: nat)
    requires Valid(b) && lineSize < 0x1_0000 && Wrapped(b)
    requires Consumable(b) <= lineSize
    requires forall k :: 0 <= k < Consumable(b) ==> Contents(b)[k] != Newline
    requires j < b.head && b.storage[j] == Newline && NoStop(b.storage, 0, j)
    ensures var r := ConsumeLine(b, lineSize);
      var taken := Consumable(b) + Min(lineSize - Consumable(b), j + 1);
      && r.length == taken
      && r.text == Contents(b)[..taken] + [EndItem]
      && Contents(r.buffer) == Contents(b)[taken..]
  {
    var c := Consumable(b);
    RunIsContents(b, c);
    forall k | b.tail <= k < b.tail + c
      ensures b.storage[k] != Newline
    {
      assert b.storage[k] == Contents(b)[k - b.tail];
    }
    StrChrMisses(b.storage, b.tail, b.fixedSize);
    StrChrFinds(b.storage, 0, j);
    ConsumeLineTakesPrefix(b, lineSize);
  }

  // ---------------------------------------------------------------------
  // What the two slips do

  /** Truncating a wrapped line with `lineSize > head` re-exposes consumed
      data: `tail` lands at `lineSize`, so the buffer afterwards reports
      `tail` more unread bytes than the `Count - lineSize` it should. */
  lemma TruncationSlipRewindsTail(b: Buffer, lineSize: nat)
    requires Valid(b) && lineSize < 0x1_0000 && TruncationSlip(b, lineSize)
    ensures var r := ConsumeLine(b, lineSize);
      && r.length == lineSize
      && r.buffer.tail == lineSize
      && |Contents(r.buffer)| == |Contents(b)| - lineSize + b.tail
  {
  }

  /** A concrete instance with capacity 8: the unread "fghi" is stored at
      slots 5, 6, 7 and 0; `consume_line(line, 2)` returns "fg" but leaves
      seven bytes unread ("cdefghi") instead of "hi". */
  lemma TruncationSlipExample()
    ensures var b := Buffer([105, 0, 99, 100, 101, 102, 103, 104, 0], 8, 1, 5, false, false);
      && Valid(b) && Contents(b) == [102, 103, 104, 105]
      && ConsumeLine(b, 2).text == [102, 103, 0]
      && Contents(ConsumeLine(b, 2).buffer) == [99, 100, 101, 102, 103, 104, 105]
  {
    var b := Buffer([105, 0, 99, 100, 101, 102, 103, 104, 0], 8, 1, 5, false, false);
    StrChrMisses(b.storage, 5, 8);
    assert TruncationSlip(b, 2);
    TruncationSlipRewindsTail(b, 2);
    var r := ConsumeLine(b, 2);
    assert r.buffer.tail == 2;
  }

  /** Splicing with `head == 0` copies the stale byte at slot 0 when it is a
      newline: the call returns more bytes than were unread. */
  lemma StaleSpliceReadsPastHead(b: Buffer, lineSize: nat)
    requires Valid(b) && lineSize < 0x1_0000 && StaleSpliceSlip(b, lineSize)
    requires b.storage[0] == Newline
    ensures var r := ConsumeLine(b, lineSize);
      && r.length == |Contents(b)| + 1
      && r.text == Contents(b) + [Newline, EndItem]
      && r.buffer.tail == 1
  {
    StrChrFinds(b.storage, 0, 0);
    RunIsContents(b, Consumable(b));
    ModBelow(1, b.fixedSize);
  }

  /** A concrete instance with capacity 4: "abc" unread at slots 1-3 with
      `head == 0` and an old newline at slot 0.  The call returns "abc\n",
      and afterwards "abc" reads as unread again. */
  lemma StaleSpliceExample()
    ensures var b := Buffer([10, 97, 98, 99, 0], 4, 0, 1, true, false);
      && Valid(b) && Contents(b) == [97, 98, 99]
      && ConsumeLine(b, 10).text == [97, 98, 99, 10, 0]
      && Contents(ConsumeLine(b, 10).buffer) == [97, 98, 99]
  {
    var b := Buffer([10, 97, 98, 99, 0], 4, 0, 1, true, false);
    StrChrMisses(b.storage, 1, 4);
    StaleSpliceReadsPastHead(b, 10);
  }

  /** Both slips can also leave `Count == fixedSize - 1` with `maxed` clear
      and `tail != 0`.  In the truncation example above, writing one more
      byte then loses all seven unread bytes. */
  lemma TruncationSlipThenWriteAllLosesAll(x: byte)
    requires x != EndItem
    ensures var b := Buffer([105, 0, 99, 100, 101, 102, 103, 104, 0], 8, 1, 5, false, false);
      var z := ConsumeLine(b, 2).buffer;
      && |Contents(z)| == b.fixedSize - 1 && !BulkWrite.CapacityFlagged(z)
      && Contents(WriteAll(z, [x, EndItem])) == []
  {
    var b := Buffer([105, 0, 99, 100, 101, 102, 103, 104, 0], 8, 1, 5, false, false);
    TruncationSlipExample();
    var z := ConsumeLine(b, 2).buffer;
    assert z.tail == 2 by {
      StrChrMisses(b.storage, 5, 8);
      TruncationSlipRewindsTail(b, 2);
    }
    BulkWrite.UnflaggedWriteOntoTail(z, x);
  }

  /** The same after the stale-splice example: one more byte written and
      the re-exposed "abc" is gone. */
  lemma StaleSpliceThenWriteAllLosesAll(x: byte)
    requires x != EndItem
    ensures var b := Buffer([10, 97, 98, 99, 0], 4, 0, 1, true, false);
      var z := ConsumeLine(b, 10).buffer;
      && |Contents(z)| == b.fixedSize - 1 && !BulkWrite.CapacityFlagged(z)
      && Contents(WriteAll(z, [x, EndItem])) == []
  {
    var b := Buffer([10, 97, 98, 99, 0], 4, 0, 1, true, false);
    StaleSpliceExample();
    var z := ConsumeLine(b, 10).buffer;
    assert z.tail == 1 by {
      StrChrMisses(b.storage, 1, 4);
      StaleSpliceReadsPastHead(b, 10);
    }
    BulkWrite.UnflaggedWriteOntoTail(z, x);
  }

  /** Two lines across the wrap, read back with the code as written: with
      capacity 4, "ab\n" was written and consumed, then "cd\n" was written,
      so 'c' sits in slot 3 and "d\n" in slots 0-1.  One call returns the
      whole line "cd\n" and empties the buffer. */
  lemma LineAcrossWrapExample()
    ensures var b := Buffer([100, 10, 0, 99, 0], 4, 2, 3, false, false);
      && Valid(b) && Contents(b) == [99, 100, 10]
      && ConsumeLine(b, 10).text == [99, 100, 10, 0]
      && Empty(ConsumeLine(b, 10).buffer)
  {
    var b := Buffer([100, 10, 0, 99, 0], 4, 2, 3, false, false);
    assert NoStop(b.storage, 0, 1);
    ConsumeLineSplices(b, 10, 1);
  }
}
