# Meshtastic ring buffer and Pico W BLE payloads, in Dafny

This project models two parts of the Meshtastic firmware.

- **`CircularBuffer`** (src/mesh/CircularBuffer.h). This is the fixed-size ring buffer the firmware uses to pass log text and byte streams between producers and consumers. It has `fixed_size + 1` storage slots. Every write leaves a 0 (`end_item`) right after the newest element, so the unread data doubles as a C string. The buffer supports single and NUL-terminated bulk writes, `clear`, a deferred `clear_if_empty`, `consume`, two `consume_block` variants, and the `char`-only `consume_line`.
- **The self-contained logic of the Raspberry Pi Pico W Bluetooth glue** (src/platform/rp2xx0/PicoWBluetooth.cpp). This covers:
  - the advertising payload and the constant scan response, as AD structures in the sense of the Bluetooth Core Specification, Vol 3, Part C, Section 11;
  - the transaction-mode, CCCD and ToRadio branches of `att_write_callback`;
  - `checkIsConnected`.

The buffer is an immutable record: storage, `fixedSize`, `head`, `tail`, `maxed` and the clear-if-empty latch. Each public operation is a pure transition, and index arithmetic is exact.

- `WellFormed` holds the shape every state keeps. This includes the trailing 0 at `head` and in the extra slot.
- `Valid` adds the link between `maxed` and the indices that the code maintains.
- Every property is stated against the abstract view `Contents`: the unread elements, oldest first.
- The deferred clear is split into its two halves (`RequestClear`, `ApplyClear`), so a write can be placed between them.

Files and modules:

| file | module | content |
|---|---|---|
| common.dfy | `Common` | bytes, `Option`, the C-string view, 16-bit truncation, modular arithmetic facts |
| circular_buffer.dfy | `CircularBuffer` | state, invariants, `Contents`, every operation except `consume_line` |
| buffer_fifo.dfy | `BufferFifo` | what single writes and the consume family do to `Contents`; FIFO round trip; deferred clear; the modular full test |
| buffer_bulk.dfy | `BulkWrite` | the bulk write's copy loop, its overrun test, and what it does to `Contents` |
| buffer_line.dfy | `LineConsume` | `strchr`, `consume_line` as written, the intended variant, line framing |
| advertising.dfy | `Advertising` | AD structure encoding and decoding, the advertising payload, the scan response |
| att_write.dfy | `AttWrite` | `att_write_callback`'s transaction, CCCD and ToRadio branches; `checkIsConnected` |

The calls the handler makes come back as effects: the BTstack request `att_server_request_can_send_now_event` and the hand-off to the phone API, `bluetoothPhoneAPI->handleToRadio`. The device name, the `connected` flags and the connection handle are parameters.

## Model

| member | source | states |
|---|---|---|
| `CircularBuffer.Create` | src/mesh/CircularBuffer.h:28-31 | a new buffer of size `size` is well formed, holds nothing unread, is not full and has no clear pending |
| `CircularBuffer.EmptyAndFullMeaning` | src/mesh/CircularBuffer.h:89-95 | `empty()` holds exactly when nothing is unread; `full()` means `fixed_size - 1` unread elements; the two never hold together |
| `CircularBuffer.Write` | src/mesh/CircularBuffer.h:33-45 | `write(item)` keeps every invariant, stores `item` at the old `head` with a 0 after it, and drops the clear latch |
| `CircularBuffer.Fill` | src/mesh/CircularBuffer.h:53-59 | the copy loop keeps the storage size, never touches the extra slot, and never lowers the overrun flag once it is set |
| `CircularBuffer.WriteAll` | src/mesh/CircularBuffer.h:47-67 | the bulk write keeps every invariant and advances `head` by the payload length (the bytes before the first 0) modulo `fixed_size` |
| `CircularBuffer.WriteAllSentinel` | src/mesh/CircularBuffer.h:60-66 | the terminator after a non-empty bulk write lands on the new `head`, or on the extra slot when `head` wraps to 0 |
| `BulkWrite.WriteFKeepsNewest` | src/mesh/CircularBuffer.h:167-176 | a rendering shorter than 600 bytes is written, and the buffer then holds the newest `fixed_size - 1` bytes of the old unread data followed by the rendering up to its first 0; the `assert` fails exactly on a longer one |
| `CircularBuffer.Clear` | src/mesh/CircularBuffer.h:69-76 | `clear()` leaves `head == tail == 0`, slot 0 terminated, nothing unread and not full |
| `CircularBuffer.RequestClear` | src/mesh/CircularBuffer.h:78-79 | raising the latch changes no unread data |
| `CircularBuffer.ApplyClear` | src/mesh/CircularBuffer.h:80-87 | the second half resets the indices and `maxed` only when the buffer is empty and the latch survived; otherwise nothing changes |
| `CircularBuffer.ClearIfEmpty` | src/mesh/CircularBuffer.h:78-87 | `clear_if_empty()` on an empty buffer zeroes the indices; on a non-empty one it leaves indices, storage and `maxed` alone; unread data never changes |
| `CircularBuffer.Consumable` | src/mesh/CircularBuffer.h:114 | the contiguous run from `tail` stays inside storage, is no longer than the unread data, and is empty exactly when the buffer is |
| `CircularBuffer.Consume` | src/mesh/CircularBuffer.h:97-109 | `consume()` on an empty buffer returns 0 and changes nothing; otherwise it returns the oldest unread element and clears `full()` |
| `CircularBuffer.ConsumeBlock` | src/mesh/CircularBuffer.h:111-123 | the zero-copy `consume_block()` returns the whole contiguous run `storage[tail..tail+n)`, moves `tail` to `(tail + n) % fixed_size` and clears `full()` |
| `CircularBuffer.ConsumeInto` | src/mesh/CircularBuffer.h:125-141 | the copying `consume_block` copies `min(block_size, run)` elements from `tail`, moves `tail` by that count modulo `fixed_size` and clears `full()` |
| `BufferFifo.WriteAppends` | src/mesh/CircularBuffer.h:33-45 | below `fixed_size - 1` unread elements, `write(item)` appends `item` and keeps `tail` |
| `BufferFifo.WriteWhenFullDropsOldest` | src/mesh/CircularBuffer.h:40-42 | a write to a full buffer drops exactly the oldest element and appends the new one |
| `BufferFifo.WriteAtCapacityLooksEmpty` | src/mesh/CircularBuffer.h:43-44 | at `fixed_size - 1` unread elements with `maxed` false, one more write leaves the buffer empty, losing everything |
| `BufferFifo.ConsumeTakesOldest` | src/mesh/CircularBuffer.h:100-108 | `consume()` removes exactly the element it returns, the oldest one |
| `BufferFifo.ConsumeBlockTakesPrefix` | src/mesh/CircularBuffer.h:114-122 | the zero-copy block is a prefix of the unread data, and exactly that prefix is removed |
| `BufferFifo.ConsumeBlockTwiceDrains` | src/mesh/CircularBuffer.h:111-123 | two zero-copy calls empty the buffer, and their blocks together are the unread data in order |
| `BufferFifo.ConsumeIntoTakesPrefix` | src/mesh/CircularBuffer.h:128-140 | the copied elements are a prefix of the unread data, exactly that prefix is removed, and the whole run is copied when it fits |
| `BufferFifo.ZeroConsumeThenWriteLosesAll` | src/mesh/CircularBuffer.h:128-138 | copying zero elements out of a full buffer clears `maxed` without consuming, and the next write then loses all unread data |
| `BufferFifo.InterleavedWriteCancelsClear` | src/mesh/CircularBuffer.h:79-83 | a write between raising the latch and checking it cancels the reset |
| `BufferFifo.ClearIfEmptyKeepsData` | src/mesh/CircularBuffer.h:83-86 | the second half of `clear_if_empty()` never changes the unread data and only resets an empty buffer |
| `BufferFifo.WriteEachAppends` | src/mesh/CircularBuffer.h:33-45 | a run of writes that stays within `fixed_size - 1` appends the items in order and keeps `tail` |
| `BufferFifo.ConsumeEachTakesOldest` | src/mesh/CircularBuffer.h:97-109 | `k` calls of `consume()` return the `k` oldest elements in order and remove exactly them |
| `BufferFifo.FifoRoundTrip` | src/mesh/CircularBuffer.h:97-109 | up to `fixed_size - 1` items written into an empty buffer come back from `consume()` in order; the buffer is empty again and one more `consume()` returns 0 |
| `BufferFifo.OverrunAfterClearLosesEverything` | src/mesh/CircularBuffer.h:44 | after `clear()`, `fixed_size` single writes leave nothing unread |
| `BufferFifo.WriteFixed` | src/mesh/CircularBuffer.h:33-45 | `write(item)` with the modular full test keeps `maxed` true exactly when `fixed_size - 1` elements are unread |
| `BufferFifo.WriteFixedKeepsNewest` | src/mesh/CircularBuffer.h:33-45 | that corrected write leaves the newest `fixed_size - 1` elements of the old unread data followed by `item` |
| `BufferFifo.WriteEachFixedKeepsNewest` | src/mesh/CircularBuffer.h:33-45 | any number of corrected writes leaves the newest `fixed_size - 1` elements of the old data followed by the items |
| `BufferFifo.OverrunAfterClearKeepsNewest` | src/mesh/CircularBuffer.h:69-76 | after `clear()`, corrected writes of any length leave exactly the newest `fixed_size - 1` items, in order |
| `BulkWrite.FillUntouched` | src/mesh/CircularBuffer.h:53-59 | the copy loop leaves alone every slot that no remaining iteration targets |
| `BulkWrite.FillWritten` | src/mesh/CircularBuffer.h:53-59 | each of the last `fixed_size` payload bytes ends up at its position `(head + count) % fixed_size` |
| `BulkWrite.FillFlag` | src/mesh/CircularBuffer.h:56-58 | the loop's `maxed` ends true exactly when it started true or some written position passed the overrun test |
| `BulkWrite.PosIsSlot` | src/mesh/CircularBuffer.h:56 | write position `count` is the slot of unread element `Count + count` |
| `BulkWrite.OverrunOnlyAtCapacity` | src/mesh/CircularBuffer.h:58 | below capacity the overrun test fires only on the byte that fills the buffer to `fixed_size - 1` |
| `BulkWrite.WriteAllUnfold` | src/mesh/CircularBuffer.h:47-67 | after a non-empty bulk write, `head`, `tail` and every slot except the new `head` are those of the copy loop |
| `BulkWrite.WriteAllAppendsKeepsTail` | src/mesh/CircularBuffer.h:62-66 | a non-empty bulk write within capacity leaves `tail` where it was |
| `BulkWrite.WriteAllAppends` | src/mesh/CircularBuffer.h:47-67 | a non-empty bulk write within capacity appends the payload to the unread data |
| `BulkWrite.AppendedElement` | src/mesh/CircularBuffer.h:53-60 | within capacity, every unread slot after the bulk write holds the corresponding element of old data plus payload |
| `BulkWrite.LongPayloadOverruns` | src/mesh/CircularBuffer.h:53-59 | a payload of at least `fixed_size` bytes always trips the overrun test |
| `BulkWrite.WriteAllKeepsNewest` | src/mesh/CircularBuffer.h:47-67 | a payload of at least `fixed_size` bytes leaves exactly its newest `fixed_size - 1` bytes unread |
| `BulkWrite.NewestElement` | src/mesh/CircularBuffer.h:53-66 | after such a long bulk write, unread element `i` is payload byte `n - (fixed_size - 1) + i` |
| `BulkWrite.OverrunFires` | src/mesh/CircularBuffer.h:53-59 | a bulk write that takes the unread count past `fixed_size - 1` trips the overrun test, provided a full buffer has `maxed` set or `tail == 0` (or the payload is at least `fixed_size` long) |
| `BulkWrite.OverrunElement` | src/mesh/CircularBuffer.h:53-66 | after such an overrun, unread element `i` is element `Count + n - (fixed_size - 1) + i` of old data plus payload, whether it is an old byte or a payload byte |
| `BulkWrite.OverrunKeepsSuffix` | src/mesh/CircularBuffer.h:47-67 | an overrunning bulk write leaves exactly the last `fixed_size - 1` elements of old data plus payload |
| `BulkWrite.WriteAllKeepsNewestAll` | src/mesh/CircularBuffer.h:47-67 | every non-empty bulk write leaves the newest `fixed_size - 1` elements of old data plus payload (all of them within capacity), unless a full buffer lost its `maxed` with `tail != 0` and the payload is shorter than `fixed_size` |
| `BulkWrite.UnflaggedWriteOntoTail` | src/mesh/CircularBuffer.h:56-66 | with `head + 1 == tail` and `maxed` clear, a one-byte bulk write misses the overrun test and moves `head` onto `tail`, so nothing reads as unread |
| `BulkWrite.ZeroConsumeThenWriteAllLosesAll` | src/mesh/CircularBuffer.h:125-141 | a zero-length copying `consume_block` on a full buffer keeps the data but clears `maxed`, which leaves the exception above, and the next one-byte bulk write loses all unread data |
| `BulkWrite.WriteKeepsFlagged` | src/mesh/CircularBuffer.h:33-45 | after any `write(item)`, a buffer at capacity has `maxed` set or `tail == 0` |
| `BulkWrite.WriteAllKeepsFlagged` | src/mesh/CircularBuffer.h:62-66 | the same after any bulk write, since it recomputes `maxed` the same way |
| `BulkWrite.ConsumeKeepsFlagged` | src/mesh/CircularBuffer.h:97-109 | after `consume()` the same holds, from any state |
| `BulkWrite.ConsumeBlockKeepsFlagged` | src/mesh/CircularBuffer.h:111-123 | after the zero-copy `consume_block()` the same holds, from any state |
| `BulkWrite.ConsumeIntoKeepsFlagged` | src/mesh/CircularBuffer.h:125-141 | the copying `consume_block` keeps it when `block_size > 0`, or when it held before and `maxed` was clear |
| `BulkWrite.ClearKeepsFlagged` | src/mesh/CircularBuffer.h:69-76 | after `clear()` the same holds |
| `BulkWrite.ClearIfEmptyKeepsFlagged` | src/mesh/CircularBuffer.h:78-87 | both halves of `clear_if_empty()`, and the whole call, keep it |
| `BulkWrite.EmptyWriteAllClobbersSlotOne` | src/mesh/CircularBuffer.h:54-60 | an empty bulk write stores 0 into slot 1; if that slot holds an unread element, the element becomes 0 |
| `BulkWrite.EmptyWriteAllExample` | src/mesh/CircularBuffer.h:47-67 | `write("ab")` then `write("")` on a cleared buffer of size 4 leaves "a" followed by 0 unread |
| `BulkWrite.WriteAllFixed` | src/mesh/CircularBuffer.h:47-67 | the bulk write with the terminator after the last element written keeps every invariant |
| `BulkWrite.WriteAllFixedAppends` | src/mesh/CircularBuffer.h:47-67 | with that placement every bulk write within capacity appends its payload, the empty one included |
| `LineConsume.StrChr` | src/mesh/CircularBuffer.h:186 | `strchr(…, '\n')` finds the first newline before any 0, and reports none when a 0 or the end of storage comes first |
| `LineConsume.StrChrFinds` | src/mesh/CircularBuffer.h:186 | a newline with no 0 or newline before it is what `strchr` finds |
| `LineConsume.StrChrMisses` | src/mesh/CircularBuffer.h:186 | a 0 with no newline before it makes `strchr` return null |
| `LineConsume.ConsumeLine` | src/mesh/CircularBuffer.h:178-237 | `consume_line` returns at most `line_size`, puts the NUL at `line[ret]`, clears `full()`, keeps the invariants and touches only `tail` |
| `LineConsume.WholeRunLine` | src/mesh/CircularBuffer.h:188-210 | the exit for a first run without newline that fits obeys the same guarantees |
| `LineConsume.PartialRunLine` | src/mesh/CircularBuffer.h:211-236 | the exit for a newline in the first run, or a first run longer than `line_size`, obeys the same guarantees |
| `LineConsume.ConsumeLineFixed` | src/mesh/CircularBuffer.h:178-237 | the corrected routine obeys the same guarantees |
| `LineConsume.ConsumeLineFixedTakesPrefix` | src/mesh/CircularBuffer.h:178-237 | the corrected routine returns the oldest unread bytes, at most `line_size` of them, and removes exactly those |
| `LineConsume.ConsumeLineAgrees` | src/mesh/CircularBuffer.h:178-237 | outside the two wrap slips the code computes exactly what the corrected routine does |
| `LineConsume.ConsumeLineTakesPrefix` | src/mesh/CircularBuffer.h:178-237 | outside the two wrap slips the code returns a prefix of the unread data and removes exactly it |
| `LineConsume.ConsumeLineFixedKeepsFlagged` | src/mesh/CircularBuffer.h:178-237 | the corrected routine keeps "at capacity, `maxed` set or `tail == 0`" when `line_size > 0`, or when it held before and `maxed` was clear |
| `LineConsume.ConsumeLineKeepsFlagged` | src/mesh/CircularBuffer.h:178-237 | outside the two wrap slips, the code as written keeps it under the same conditions |
| `LineConsume.ZeroLineThenWriteAllLosesAll` | src/mesh/CircularBuffer.h:207-237 | `consume_line(line, 0)` on a full buffer returns "" and keeps the data but clears `maxed` with `tail != 0`; the next one-byte bulk write loses all unread data |
| `LineConsume.ConsumeLineOnEmpty` | src/mesh/CircularBuffer.h:183-209 | on an empty buffer it returns 0 with `line == ""` and leaves `tail == head` |
| `LineConsume.ConsumeLineStopsAtNewline` | src/mesh/CircularBuffer.h:186-224 | with a newline in the first run within `line_size`, it copies exactly through the newline and moves `tail` just past it |
| `LineConsume.ConsumeLineTruncates` | src/mesh/CircularBuffer.h:211-224 | with no newline and `line_size` shorter than the run (unwrapped, or not beyond `head`), it copies `line_size` bytes and advances `tail` by `line_size` |
| `LineConsume.ConsumeLineSplices` | src/mesh/CircularBuffer.h:191-209 | in a wrapped buffer whose first run has no newline and fits, it appends the second run through its first newline (or as much as fits) |
| `LineConsume.TruncationSlipRewindsTail` | src/mesh/CircularBuffer.h:225-230 | truncating a wrapped line with `line_size > head` sets `tail` to `line_size`, so `tail` more bytes read as unread than should |
| `LineConsume.TruncationSlipExample` | src/mesh/CircularBuffer.h:225-230 | size 8, "fghi" unread from slot 5: `consume_line(line, 2)` returns "fg" but leaves "cdefghi" unread |
| `LineConsume.StaleSpliceReadsPastHead` | src/mesh/CircularBuffer.h:193-201 | with `head == 0` and a stale newline in slot 0, the splice returns one byte more than was unread and sets `tail` to 1 |
| `LineConsume.StaleSpliceExample` | src/mesh/CircularBuffer.h:193-201 | size 4, "abc" unread from slot 1, `head == 0`: the call returns "abc\n" and "abc" reads as unread again |
| `LineConsume.TruncationSlipThenWriteAllLosesAll` | src/mesh/CircularBuffer.h:225-230 | after the truncation example, seven bytes read as unread in a buffer of size 8 with `maxed` clear and `tail` 2; one more byte written and nothing reads as unread |
| `LineConsume.StaleSpliceThenWriteAllLosesAll` | src/mesh/CircularBuffer.h:193-201 | after the stale-splice example, three bytes read as unread in a buffer of size 4 with `maxed` clear and `tail` 1; one more byte written and nothing reads as unread |
| `LineConsume.LineAcrossWrapExample` | src/mesh/CircularBuffer.h:191-209 | "cd\n" stored across the wrap is returned whole by one call, which empties the buffer |
| `Advertising.EncodeAd` | src/platform/rp2xx0/PicoWBluetooth.cpp:289-297 | an AD structure is its length octet (type plus data, never 0), its type and its data |
| `Advertising.DecodeEncode` | src/platform/rp2xx0/PicoWBluetooth.cpp:288-304 | decoding AD structures inverts encoding them |
| `Advertising.AdvertisingData` | src/platform/rp2xx0/PicoWBluetooth.cpp:283-304 | the payload is `5 + fit` octets, at most 31, and starts with `[0x02, Flags, 0x06]` |
| `Advertising.AdvertisingDataDecodes` | src/platform/rp2xx0/PicoWBluetooth.cpp:283-304 | the payload reads back as the Flags structure (LE General Discoverable, BR/EDR not supported) followed by one local-name structure |
| `Advertising.AdvertisedNameIsPrefix` | src/platform/rp2xx0/PicoWBluetooth.cpp:294-303 | the name bytes are a prefix of the device name; the type is Complete Local Name exactly when all of it fits, and otherwise Shortened Local Name with 26 bytes |
| `Advertising.LongNameLengthWraps` | src/platform/rp2xx0/PicoWBluetooth.cpp:294 | `name_len` is 8 bits, so a 260-byte name is advertised as a complete 4-byte name |
| `Advertising.ScanResponseCarriesServiceUuid` | src/platform/rp2xx0/PicoWBluetooth.cpp:38-45 | the scan response is one Incomplete List of 128-bit Service UUIDs holding 6ba1b218-15a8-461f-9fa8-5dcae273eafd byte-reversed, with length octet 17, within 31 octets |
| `Advertising.UuidBytesReversed` | src/platform/rp2xx0/PicoWBluetooth.cpp:40-42 | the 16 UUID octets of the scan response are the UUID's bytes in reverse order |
| `AttWrite.AttWriteCallback` | src/platform/rp2xx0/PicoWBluetooth.cpp:216-281 | every write returns 0 and keeps the size of `lastToRadio` |
| `AttWrite.TransactionWriteIgnored` | src/platform/rp2xx0/PicoWBluetooth.cpp:224-244 | a write with a transaction mode other than NONE returns 0, changes no state and requests nothing |
| `AttWrite.ConnectionForHandle` | src/platform/rp2xx0/PicoWBluetooth.cpp:134-156 | looking up a CCCD's connection points it at its characteristic, clears notification and payload, and keeps `connected` |
| `AttWrite.LittleEndian16` | src/platform/rp2xx0/PicoWBluetooth.cpp:251 | the CCCD value is the first octet plus 256 times the second |
| `AttWrite.CccdWrite` | src/platform/rp2xx0/PicoWBluetooth.cpp:249-258 | a CCCD write sets notification exactly when the little-endian value is 0x0001. It records the connection handle and value handle, makes the connection current, requests to send exactly when enabled, and changes no other connection, `lastToRadio` or `connection_secured` |
| `AttWrite.CccdWriteDecodes` | src/platform/rp2xx0/PicoWBluetooth.cpp:249-258 | a CCCD write enables notifications exactly when the value is 0x0001. It records the connection handle, makes the connection current, keeps `connected`, requests to send exactly when enabling, and leaves other connections alone |
| `AttWrite.ToRadioWrite` | src/platform/rp2xx0/PicoWBluetooth.cpp:260-274 | after a ToRadio write the first `len` bytes of `lastToRadio` are the packet, nothing else in the state changes, and the only possible effect is passing that packet to an existing phone API |
| `AttWrite.ToRadioForwardedIffDifferent` | src/platform/rp2xx0/PicoWBluetooth.cpp:260-274 | a ToRadio packet is passed on exactly when it differs from the first `len` bytes of `lastToRadio` (and a phone API exists). Those bytes then equal the packet, the rest of `lastToRadio` is kept, and nothing else changes |
| `AttWrite.ImmediateRepeatDropped` | src/platform/rp2xx0/PicoWBluetooth.cpp:265-273 | the same packet written twice in a row is passed on at most once |
| `AttWrite.ShorterPrefixDropped` | src/platform/rp2xx0/PicoWBluetooth.cpp:263-273 | after [1, 2, 3] is passed on, the different packet [1, 2] is dropped |
| `AttWrite.ToRadioWriteFixed` | src/platform/rp2xx0/PicoWBluetooth.cpp:260-274 | the intended ToRadio write remembers the packet with its length, and passes on at most that packet |
| `AttWrite.ToRadioFixedExtendsHandler` | src/platform/rp2xx0/PicoWBluetooth.cpp:263-273 | the intended write leaves the same state as the handler and passes on every packet the handler passes on. It also passes on exactly the packets that match the start of `lastToRadio` but differ in length from the previous packet |
| `AttWrite.ToRadioRunFixedForwardsChanges` | src/platform/rp2xx0/PicoWBluetooth.cpp:260-274 | over any run of packets, the intended write passes on exactly those that differ from the packet before them |
| `AttWrite.ShorterPrefixForwardedWhenFixed` | src/platform/rp2xx0/PicoWBluetooth.cpp:263-273 | the run [1, 2, 3], [1, 2] goes through whole with the intended write |
| `AttWrite.OnlyFromNumCccdChangesConnection` | src/platform/rp2xx0/PicoWBluetooth.cpp:103-106 | `checkIsConnected()` is unchanged by every write except a CCCD write to FromNum: transaction writes, ToRadio writes, other CCCDs and unknown handles |
| `AttWrite.CccdWriteAndConnection` | src/platform/rp2xx0/PicoWBluetooth.cpp:103-106 | enabling FromNum notifications makes `checkIsConnected()` true. Disabling them leaves it true exactly when the link is marked connected or secured. Other CCCDs do not affect it |

## Left out

- The mutex and the lock-free RP2040 mode. Each operation is one atomic transition. The only interleaving modelled is a write between the two halves of `clear_if_empty`, which the code comments on.
- Uninitialised storage. `new T[size + 1]` leaves the extra slot undefined, while `WellFormed` requires it to hold 0. Only 0 is ever written there, and `strchr` would otherwise run past the buffer.
- Sizes 0 and 1. `fixed_size` 0 divides by zero and 1 holds nothing, so `WellFormed` requires `2 <= fixed_size < 65536`.
- Element types other than `char`/`uint8_t`. The copying `consume_block` counts bytes in its `memcpy`, which only agrees with elements for one-byte types. The generic `consume_line` and `writeF` stubs, which do nothing, are left out too.
- `vsnprintf` in `writeF`. `CircularBuffer.WriteF` takes the rendered text, and the `assert` becomes a `None` result.
- CircularBuffer.WriteAll: requires a payload shorter than 65536 bytes, because the 16-bit loop counter wraps and the loop never ends on a longer one.
- BulkWrite.WriteAllKeepsNewestAll: excludes, for payloads shorter than `fixed_size`, a buffer at capacity whose `maxed` is clear while `tail != 0`. Four calls leave that state: a zero-length copying `consume_block` on a full buffer, `consume_line(line, 0)` on a full buffer, and the truncation and stale-splice slips of `consume_line` (see Findings). From there the code keeps nothing of the unread data, as `BulkWrite.ZeroConsumeThenWriteAllLosesAll`, `LineConsume.ZeroLineThenWriteAllLosesAll`, `LineConsume.TruncationSlipThenWriteAllLosesAll` and `LineConsume.StaleSpliceThenWriteAllLosesAll` show. Every other operation keeps the excluded state away (the `KeepsFlagged` lemmas).
- BulkWrite.WriteFKeepsNewest: has the same exclusion, and also excludes a rendering that starts with 0, which `BulkWrite.EmptyWriteAllClobbersSlotOne` covers.
- CircularBuffer.Create: requires the storage's extra slot to hold 0, for the reason above.
- AttWrite.AttWriteCallback: requires a CCCD value of at least two octets, a ToRadio `offset` no larger than the value, and a packet no longer than `lastToRadio`. The code reads those bytes without checking, and `MAX_TO_FROM_RADIO_SIZE` is not part of this model (the size of `lastToRadio` stands for it).
- The BTstack side of the Bluetooth code is left out: `att_read_callback`, `notify_callback_handler`, `onNowHasData`, the HCI and security-manager handlers that set `connected` and `connection_secured`, `print_named_data`, setup, shutdown and restart. `connected`, `connection_secured`, the connection handle and the device name are inputs.
- The advertising interval and type arguments, and the `gap_*` calls that hand over the payloads.
- Attribute handle numbers. These are generated into a header that is not part of this model, so handles are named by the characteristic they belong to.
- `connection_for_conn_handle` on a handle other than the three CCCDs, which dereferences null. The write path never calls it that way.
- The textual form of the service UUID. `Advertising.MeshtasticServiceUuid` gives its 16 bytes directly.
- src/platform/rp2xx0/PicoWBluetooth.h (declarations only) and variants/rp2040/rpipicow/execute-compile-gatt.py (a build script).

## Findings

| source | as written | input that shows it | evidently intended | confidence | as-written member | corrected member |
|---|---|---|---|---|---|---|
| src/mesh/CircularBuffer.h:44 | `maxed = (head == tail - 1)` compares in `int`, so it is false when `tail == 0` and `head == fixed_size - 1` | `clear()`, then `fixed_size` single writes: the last one moves `head` onto `tail` and everything unread is lost. A zero-length copying `consume_block` on a full buffer reaches the same state | the modular test `(head + 1) % fixed_size == tail`, which the bulk write's overrun check already spells out for `tail == 0`. Every overrun then keeps the newest `fixed_size - 1` elements | high, not executed | `BufferFifo.OverrunAfterClearLosesEverything` | `BufferFifo.OverrunAfterClearKeepsNewest` |
| src/mesh/CircularBuffer.h:60 | `buffer[pos + 1] = end_item` with `pos` still 0 when the payload is empty | size 4, `write("ab")` after `clear()`, then `write("")`: the unread "ab" becomes "a", 0 | put the terminator after the last element written, at `head` when nothing was written | high, not executed | `BulkWrite.EmptyWriteAllExample` | `BulkWrite.WriteAllFixedAppends` |
| src/mesh/CircularBuffer.h:225-230 | wrapped, no newline, `head < line_size < run`: `tail_copy` becomes `line_size` (or `written_out + will_consume`), an absolute slot | size 8, "fghi" unread at slots 5, 6, 7, 0 (`head` 1, `tail` 5), `consume_line(line, 2)`: returns "fg" and leaves "cdefghi" unread | `tail` advances by the bytes copied: `(tail + line_size) % fixed_size` | high, not executed | `LineConsume.TruncationSlipExample` | `LineConsume.ConsumeLineFixedTakesPrefix` |
| src/mesh/CircularBuffer.h:193-201 | the splice scans from slot 0 even when `head == 0`, where slot 0 is stale | size 4, "abc" unread at slots 1-3, `head` 0, an old '\n' in slot 0, `consume_line(line, 10)`: returns "abc\n" and "abc" reads as unread again | scan the second run only when it is not empty (`head != 0`) | high, not executed | `LineConsume.StaleSpliceExample` | `LineConsume.ConsumeLineFixedTakesPrefix` |
| src/platform/rp2xx0/PicoWBluetooth.cpp:263-265 | the duplicate test compares only the new packet's length of `lastToRadio` | ToRadio [1, 2, 3] then [1, 2]: the second, different packet is dropped | drop only an exact repeat of the previous packet, length included | medium, not executed | `AttWrite.ShorterPrefixDropped` | `AttWrite.ToRadioRunFixedForwardsChanges` |
