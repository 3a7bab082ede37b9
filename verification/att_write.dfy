/** The parts of the Pico W GATT glue that are plain logic
    (src/platform/rp2xx0/PicoWBluetooth.cpp): `att_write_callback`'s handling
    of queued-write transactions, Client Characteristic Configuration
    (CCCD) writes and ToRadio writes, and `checkIsConnected`.  The calls the
    handler makes (the BTstack send request and the hand-off to the phone
    API) are returned as effects instead of being performed. */
module AttWrite {
  import opened Common

  /** The characteristics whose CCCD the handler accepts. */
  datatype Characteristic = Temperature | BatteryLevel | FromNum

  /** The attribute a write targets.  Every handle the write path does not
      recognise behaves alike, so it is kept only as a number. */
  datatype AttHandle = Cccd(c: Characteristic) | ToRadioValue | OtherHandle(id: nat)

  /** `le_connection_t`: `valueOf` stands for `value_handle` (the value
      handle of that characteristic, `None` before one is assigned) and
      `data` for the `data`/`data_size` pair. */
  datatype Connection = Connection(
    handle: nat,
    notificationEnabled: bool,
    valueOf: Option<Characteristic>,
    data: seq<byte>,
    connected: bool)

  /** The file-level state the write path reads and changes. */
  datatype Gatt = Gatt(
    temperature: Connection,
    battery: Connection,
    fromNum: Connection,
    current: Option<Characteristic>,   // `le_connection`
    lastToRadio: seq<byte>,            // `lastToRadio[MAX_TO_FROM_RADIO_SIZE]`
    connectionSecured: bool,
    phoneApiPresent: bool)             // `bluetoothPhoneAPI != nullptr`

  /** What the handler asks of the rest of the system. */
  datatype Effect =
    | RequestCanSendNow(connectionHandle: nat)   // att_server_request_can_send_now_event
    | HandleToRadio(packet: seq<byte>)           // bluetoothPhoneAPI->handleToRadio

  datatype Written = Written(gatt: Gatt, effects: seq<Effect>, status: int)

  /** `ATT_TRANSACTION_MODE_NONE`: an ordinary write, not part of a queued
      (prepare/execute) write. */
  const TransactionModeNone: nat := 0

  /** The "notifications enabled" bit of a CCCD value (Bluetooth Core
      Specification, Vol 3, Part G, Section 3.3.3.3). */
  const CccdNotification: nat := 0x0001

  function ConnectionFor(g: Gatt, c: Characteristic): Connection
  {
    match c
    case Temperature => g.temperature
    case BatteryLevel => g.battery
    case FromNum => g.fromNum
  }

  function WithConnection(g: Gatt, c: Characteristic, conn: Connection): (r: Gatt)
    ensures ConnectionFor(r, c) == conn
    ensures forall d :: d != c ==> ConnectionFor(r, d) == ConnectionFor(g, d)
    ensures r.current == g.current && r.lastToRadio == g.lastToRadio
    ensures r.connectionSecured == g.connectionSecured && r.phoneApiPresent == g.phoneApiPresent
  {
    match c
    case Temperature => g.(temperature := conn)
    case BatteryLevel => g.(battery := conn)
    case FromNum => g.(fromNum := conn)
  }

  /** `little_endian_read_16(buffer, 0)`. */
  function LittleEndian16(buffer: seq<byte>): (v: nat)
    requires |buffer| >= 2
    ensures v < 0x1_0000 && v % 256 == buffer[0] && v / 256 == buffer[1]
  {
    buffer[0] as nat + 256 * buffer[1] as nat
  }

  /** What the handler needs of its arguments: a CCCD value holds the two
      octets it reads, the ToRadio offset lies within the value, and the
      packet is no longer than `lastToRadio`. */
  predicate WriteArgumentsFit(g: Gatt, att: AttHandle, mode: nat, offset: nat, buffer: seq<byte>)
  {
    mode == TransactionModeNone ==>
      && (att.Cccd? ==> |buffer| >= 2)
      && (att.ToRadioValue? ==> offset <= |buffer| && |buffer| - offset <= |g.lastToRadio|)
  }

  /** `att_write_callback`: returns 0 on every path. */
  function AttWriteCallback(g: Gatt, connectionHandle: nat, att: AttHandle, mode: nat,
                            offset: nat, buffer: seq<byte>): (r: Written)
    requires WriteArgumentsFit(g, att, mode, offset, buffer)
    ensures r.status == 0 && |r.gatt.lastToRadio| == |g.lastToRadio|
  {
    if mode != TransactionModeNone then
      // only logged
      Written(g, [], 0)
    else
      match att
      case Cccd(c) =>
        var (g', effects) := CccdWrite(g, connectionHandle, c, buffer);
        Written(g', effects, 0)
      case ToRadioValue =>
        var (g', effects) := ToRadioWrite(g, buffer[offset..]);
        Written(g', effects, 0)
      case OtherHandle(_) =>
        Written(g, [], 0)
  }

  // ---------------------------------------------------------------------
  // CCCD writes

  /** `connection_for_conn_handle` on a CCCD handle: picks the matching
      connection record, points its value handle at the characteristic and
      resets the handle, the notification flag and the payload. */
  function ConnectionForHandle(g: Gatt, connectionHandle: nat, c: Characteristic): (conn: Connection)
    ensures conn.connected == ConnectionFor(g, c).connected
    ensures conn.valueOf == Some(c) && conn.data == [] && !conn.notificationEnabled
  {
    ConnectionFor(g, c).(valueOf := Some(c), handle := connectionHandle,
                         notificationEnabled := false, data := [])
  }

  /** A CCCD write: reset the characteristic's connection record, set its
      notification flag from the written value, make it current and, when
      enabling, ask to be called back when sending is possible. */
  function CccdWrite(g: Gatt, connectionHandle: nat, c: Characteristic, buffer: seq<byte>)
    : (r: (Gatt, seq<Effect>))
    requires |buffer| >= 2
    ensures var conn := ConnectionFor(r.0, c);
      && (conn.notificationEnabled <==> LittleEndian16(buffer) == CccdNotification)
      && conn.handle == connectionHandle && conn.valueOf == Some(c)
      && r.0.current == Some(c)
      && r.1 == (if conn.notificationEnabled then [RequestCanSendNow(connectionHandle)] else [])
    ensures forall d :: d != c ==> ConnectionFor(r.0, d) == ConnectionFor(g, d)
    ensures r.0.lastToRadio == g.lastToRadio && r.0.connectionSecured == g.connectionSecured
  {
    var context := ConnectionForHandle(g, connectionHandle, c);
    var enabled := LittleEndian16(buffer) == CccdNotification;
    var context' := context.(notificationEnabled := enabled, handle := connectionHandle);
    var effects := if enabled then [RequestCanSendNow(connectionHandle)] else [];
    (WithConnection(g, c, context').(current := Some(c)), effects)
  }

  /** A CCCD write enables notifications exactly when the value's first
      octet is 1 and its second 0, records the writer's connection handle,
      makes this connection the current one, keeps its `connected` flag,
      asks to send exactly when enabling, and touches no other connection. */
  lemma CccdWriteDecodes(g: Gatt, connectionHandle: nat, c: Characteristic, buffer: seq<byte>)
    requires |buffer| >= 2
    ensures var r := AttWriteCallback(g, connectionHandle, Cccd(c), TransactionModeNone, 0, buffer);
      var conn := ConnectionFor(r.gatt, c);
      && (conn.notificationEnabled <==> buffer[0] == 1 && buffer[1] == 0)
      && conn.handle == connectionHandle
      && conn.connected == ConnectionFor(g, c).connected
      && conn.valueOf == Some(c) && conn.data == []
      && r.gatt.current == Some(c)
      && (r.effects == [RequestCanSendNow(connectionHandle)] <==> conn.notificationEnabled)
      && (!conn.notificationEnabled ==> r.effects == [])
      && (forall d :: d != c ==> ConnectionFor(r.gatt, d) == ConnectionFor(g, d))
      && r.gatt.lastToRadio == g.lastToRadio
      && r.gatt.connectionSecured == g.connectionSecured
  {
    var v := LittleEndian16(buffer);
    assert v == 1 <==> buffer[0] == 1 && buffer[1] == 0;
  }

  // ---------------------------------------------------------------------
  // ToRadio writes

  /** The packet is compared with the first `len` bytes of `lastToRadio`; a
      different packet overwrites those bytes and is passed on when a phone
      API object exists. */
  function ToRadioWrite(g: Gatt, packet: seq<byte>): (r: (Gatt, seq<Effect>))
    requires |packet| <= |g.lastToRadio|
    ensures |r.0.lastToRadio| == |g.lastToRadio| && r.0.lastToRadio[..|packet|] == packet
    ensures r.0.(lastToRadio := g.lastToRadio) == g
    ensures r.1 == [] || (r.1 == [HandleToRadio(packet)] && g.phoneApiPresent)
  {
    var len := |packet|;
    if g.lastToRadio[..len] != packet then
      (g.(lastToRadio := packet + g.lastToRadio[len..]),
       if g.phoneApiPresent then [HandleToRadio(packet)] else [])
    else
      (g, [])
  }

  /** A ToRadio write is passed on exactly when its bytes differ from the
      start of `lastToRadio` (and a phone API object exists); afterwards the
      start of `lastToRadio` is the packet and the rest is kept. */
  lemma ToRadioForwardedIffDifferent(g: Gatt, offset: nat, buffer: seq<byte>)
    requires offset <= |buffer| && |buffer| - offset <= |g.lastToRadio|
    ensures var r := AttWriteCallback(g, 0, ToRadioValue, TransactionModeNone, offset, buffer);
      var packet := buffer[offset..];
      && (r.effects == [HandleToRadio(packet)]
          <==> g.phoneApiPresent && g.lastToRadio[..|packet|] != packet)
      && (r.effects == [] <==> !g.phoneApiPresent || g.lastToRadio[..|packet|] == packet)
      && r.gatt.lastToRadio[..|packet|] == packet
      && r.gatt.lastToRadio[|packet|..] == g.lastToRadio[|packet|..]
      && r.gatt.(lastToRadio := g.lastToRadio) == g
  {
    var packet := buffer[offset..];
    if g.lastToRadio[..|packet|] == packet {
      assert g.lastToRadio[..|packet|] + g.lastToRadio[|packet|..] == g.lastToRadio;
    }
  }

  /** The same packet written twice in a row is passed on at most once. */
  lemma ImmediateRepeatDropped(g: Gatt, packet: seq<byte>)
    requires |packet| <= |g.lastToRadio|
    ensures var first := AttWriteCallback(g, 0, ToRadioValue, TransactionModeNone, 0, packet);
      AttWriteCallback(first.gatt, 0, ToRadioValue, TransactionModeNone, 0, packet).effects == []
  {
    assert packet[0..] == packet;
    ToRadioForwardedIffDifferent(g, 0, packet);
    var first := AttWriteCallback(g, 0, ToRadioValue, TransactionModeNone, 0, packet);
    ToRadioForwardedIffDifferent(first.gatt, 0, packet);
  }

  /** The comparison covers only the new packet's length, so a packet that is
      a proper prefix of the previous one is dropped although it is a
      different packet: after [1, 2, 3], the packet [1, 2] is not passed
      on. */
  lemma ShorterPrefixDropped(g: Gatt)
    requires |g.lastToRadio| >= 3 && g.phoneApiPresent && g.lastToRadio[..3] != [1, 2, 3]
    ensures var first := AttWriteCallback(g, 0, ToRadioValue, TransactionModeNone, 0, [1, 2, 3]);
      && first.effects == [HandleToRadio([1, 2, 3])]
      && AttWriteCallback(first.gatt, 0, ToRadioValue, TransactionModeNone, 0, [1, 2]).effects == []
  {
    ToRadioForwardedIffDifferent(g, 0, [1, 2, 3]);
    var first := AttWriteCallback(g, 0, ToRadioValue, TransactionModeNone, 0, [1, 2, 3]);
    assert first.gatt.lastToRadio[..2] == [1, 2] by {
      assert first.gatt.lastToRadio[..3] == [1, 2, 3];
    }
    ToRadioForwardedIffDifferent(first.gatt, 0, [1, 2]);
  }

  // ---------------------------------------------------------------------
  // ToRadio duplicate suppression as evidently intended

  /** The ToRadio write with the previous packet's length kept beside its
      bytes: the previous packet is `lastToRadio[..lastLength]`, and only an
      exact repeat of it, length included, is dropped. */
  function ToRadioWriteFixed(g: Gatt, lastLength: nat, packet: seq<byte>): (r: (Gatt, nat, seq<Effect>))
    requires lastLength <= |g.lastToRadio| && |packet| <= |g.lastToRadio|
    ensures |r.0.lastToRadio| == |g.lastToRadio| && r.0.phoneApiPresent == g.phoneApiPresent
    ensures r.1 == |packet| && r.0.lastToRadio[..r.1] == packet
    ensures r.2 == [] || r.2 == [HandleToRadio(packet)]
  {
    var len := |packet|;
    if g.lastToRadio[..lastLength] != packet then
      (g.(lastToRadio := packet + g.lastToRadio[len..]), len,
       if g.phoneApiPresent then [HandleToRadio(packet)] else [])
    else
      (g, len, [])
  }

  /** The fixed write and the handler leave the same state.  Every packet
      the handler passes on, the fixed write passes on too; the fixed write
      also passes on exactly the packets that match the start of
      `lastToRadio` while the previous packet had another length. */
  lemma ToRadioFixedExtendsHandler(g: Gatt, lastLength: nat, offset: nat, buffer: seq<byte>)
    requires lastLength <= |g.lastToRadio|
    requires offset <= |buffer| && |buffer| - offset <= |g.lastToRadio|
    ensures var packet := buffer[offset..];
      var w := AttWriteCallback(g, 0, ToRadioValue, TransactionModeNone, offset, buffer);
      var f := ToRadioWriteFixed(g, lastLength, packet);
      && f.0 == w.gatt
      && (w.effects != [] ==> f.2 == w.effects)
      && (f.2 != [] && w.effects == [] <==>
            g.phoneApiPresent && g.lastToRadio[..|packet|] == packet && |packet| != lastLength)
  {
    var packet := buffer[offset..];
    ToRadioForwardedIffDifferent(g, offset, buffer);
    if g.lastToRadio[..|packet|] == packet {
      assert packet + g.lastToRadio[|packet|..] == g.lastToRadio;
    }
  }

  /** Of a run of packets, those that differ from the packet just before
      them (the first is compared with `previous`), in order. */
  function Changes(previous: seq<byte>, packets: seq<seq<byte>>): (r: seq<seq<byte>>)
    ensures |r| <= |packets|
    decreases |packets|
  {
    if |packets| == 0 then []
    else (if packets[0] != previous then [packets[0]] else []) + Changes(packets[0], packets[1..])
  }

  /** The fixed ToRadio write applied to each packet in turn: the packets
      it passes on, in order. */
  function ToRadioRunFixed(g: Gatt, lastLength: nat, packets: seq<seq<byte>>): (r: seq<seq<byte>>)
    requires lastLength <= |g.lastToRadio|
    requires forall i :: 0 <= i < |packets| ==> |packets[i]| <= |g.lastToRadio|
    decreases |packets|
  {
    if |packets| == 0 then []
    else
      var step := ToRadioWriteFixed(g, lastLength, packets[0]);
      (if step.2 == [] then [] else [packets[0]]) + ToRadioRunFixed(step.0, step.1, packets[1..])
  }

  /** With a phone API present, the fixed write passes on exactly the
      packets of a run that differ from the one before them: only repeats
      are dropped. */
  lemma {:induction false} ToRadioRunFixedForwardsChanges(g: Gatt, lastLength: nat, packets: seq<seq<byte>>)
    requires lastLength <= |g.lastToRadio| && g.phoneApiPresent
    requires forall i :: 0 <= i < |packets| ==> |packets[i]| <= |g.lastToRadio|
    ensures ToRadioRunFixed(g, lastLength, packets) == Changes(g.lastToRadio[..lastLength], packets)
    decreases |packets|
  {
    if |packets| > 0 {
      var step := ToRadioWriteFixed(g, lastLength, packets[0]);
      assert step.2 == [] <==> packets[0] == g.lastToRadio[..lastLength];
      assert forall i :: 0 <= i < |packets[1..]| ==> |packets[1..][i]| <= |step.0.lastToRadio| by {
        forall i | 0 <= i < |packets[1..]|
          ensures |packets[1..][i]| <= |step.0.lastToRadio|
        {
          assert packets[1..][i] == packets[i + 1];
        }
      }
      ToRadioRunFixedForwardsChanges(step.0, step.1, packets[1..]);
    }
  }

  /** The run [1, 2, 3], [1, 2], which the handler as written cuts short
      (`ShorterPrefixDropped`), goes through whole with the fixed write. */
  lemma ShorterPrefixForwardedWhenFixed(g: Gatt)
    requires |g.lastToRadio| >= 3 && g.phoneApiPresent && g.lastToRadio[..3] != [1, 2, 3]
    ensures ToRadioRunFixed(g, 3, [[1, 2, 3], [1, 2]]) == [[1, 2, 3], [1, 2]]
  {
    ToRadioRunFixedForwardsChanges(g, 3, [[1, 2, 3], [1, 2]]);
    assert [[1, 2, 3], [1, 2]][1..] == [[1, 2]];
    assert [[1, 2]][1..] == [];
  }

  // ---------------------------------------------------------------------
  // Transactions and connection state

  /** Any write inside a queued-write transaction only logs: the state is
      untouched, nothing is requested and the status is 0. */
  lemma TransactionWriteIgnored(g: Gatt, connectionHandle: nat, att: AttHandle, mode: nat,
                                offset: nat, buffer: seq<byte>)
    requires mode != TransactionModeNone
    ensures AttWriteCallback(g, connectionHandle, att, mode, offset, buffer) == Written(g, [], 0)
  {
  }

  /** `checkIsConnected`: the phone counts as connected when the FromNum
      connection is marked connected, has notifications enabled, or the link
      is secured. */
  function CheckIsConnected(g: Gatt): bool
  {
    g.fromNum.connected || g.fromNum.notificationEnabled || g.connectionSecured
  }

  /** Enabling FromNum notifications makes the phone count as connected;
      disabling them leaves it connected exactly when the link is marked
      connected or secured, and a write to any other CCCD does not change
      the answer. */
  lemma CccdWriteAndConnection(g: Gatt, connectionHandle: nat, c: Characteristic, buffer: seq<byte>)
    requires |buffer| >= 2
    ensures var r := AttWriteCallback(g, connectionHandle, Cccd(c), TransactionModeNone, 0, buffer);
      && (c == FromNum && buffer[0] == 1 && buffer[1] == 0 ==> CheckIsConnected(r.gatt))
      && (c == FromNum && !(buffer[0] == 1 && buffer[1] == 0) ==>
            (CheckIsConnected(r.gatt) <==> g.fromNum.connected || g.connectionSecured))
      && (c != FromNum ==> CheckIsConnected(r.gatt) == CheckIsConnected(g))
  {
    CccdWriteDecodes(g, connectionHandle, c, buffer);
  }

  /** Only a CCCD write to FromNum can change whether the phone counts as
      connected: transaction writes, ToRadio writes, other CCCDs and
      unknown handles leave `checkIsConnected()` as it was. */
  lemma OnlyFromNumCccdChangesConnection(g: Gatt, connectionHandle: nat, att: AttHandle, mode: nat,
                                         offset: nat, buffer: seq<byte>)
    requires WriteArgumentsFit(g, att, mode, offset, buffer)
    requires mode != TransactionModeNone || att != Cccd(FromNum)
    ensures CheckIsConnected(AttWriteCallback(g, connectionHandle, att, mode, offset, buffer).gatt)
         == CheckIsConnected(g)
  {
    if mode == TransactionModeNone && att.Cccd? {
      assert ConnectionFor(AttWriteCallback(g, connectionHandle, att, mode, offset, buffer).gatt, FromNum)
          == ConnectionFor(g, FromNum);
    }
  }
}
