/**
 * The HCI socket side of the listener (lib/socketlistener.js): the command
 * encoders that fill fixed-size buffers at fixed offsets, the socket filter,
 * the order in which a socket is opened and configured, and the origin a
 * listener stamps on its data.
 *
 * Commands are framed as section 5.4.1 of Volume 4 Part E of the Bluetooth
 * Core Specification lays out an HCI command packet, preceded by the UART
 * packet indicator: indicator 0x01, opcode (16 bits, little-endian),
 * parameter length, parameters. Each encoder is a method that fills a
 * buffer step by step and is proved to produce the byte image a function
 * below specifies; the byte images are then proved to frame and parse as
 * intended.
 *
 * The native socket is a class that records what is bound, filtered,
 * started and written; no I/O is modelled.
 */
module Listener {
  import opened Wrappers
  import opened Text
  import opened Packet
  import Decoder

  // ---------------------------------------------------------------------
  // Node Buffer writes

  /** A little-endian 16-bit field. */
  function LE16(v: nat): (bs: seq<byte>)
    requires v < 0x1_0000
  {
    [v % 256, v / 256]
  }

  /** A little-endian 32-bit field. */
  function LE32(v: nat): (bs: seq<byte>)
    requires v < 0x1_0000_0000
  {
    [v % 256, (v / 256) % 256, (v / 0x1_0000) % 256, v / 0x100_0000]
  }

  /** Reads a little-endian 32-bit field. */
  function ReadUInt32LE(data: seq<byte>, offset: nat): (v: nat)
    requires offset + 4 <= |data|
    ensures v < 0x1_0000_0000
  {
    data[offset] as int + 0x100 * data[offset + 1] as int
      + 0x1_0000 * data[offset + 2] as int + 0x100_0000 * data[offset + 3] as int
  }

  /** Each little-endian field reads back as the value written. */
  lemma LittleEndianRoundTrip(v16: nat, v32: nat)
    requires v16 < 0x1_0000 && v32 < 0x1_0000_0000
    ensures Decoder.ReadUInt16LE(LE16(v16), 0) == v16
    ensures ReadUInt32LE(LE32(v32), 0) == v32
  {
    var a, b, c := v32 / 256, v32 / 0x1_0000, v32 / 0x100_0000;
    assert v32 == 256 * a + v32 % 256;
    assert a == 256 * (v32 / 0x1_0000) + a % 256;
    assert b == 256 * c + b % 256;
  }

  /** `bytes` laid over `buf` from `offset` on, the rest of `buf` kept. */
  function Splice(buf: seq<byte>, offset: nat, bytes: seq<byte>): (r: seq<byte>)
    requires offset + |bytes| <= |buf|
  {
    buf[..offset] + bytes + buf[offset + |bytes|..]
  }

  /** A splice keeps the length, holds `bytes` at `offset` and changes nothing else. */
  lemma SpliceAt(buf: seq<byte>, offset: nat, bytes: seq<byte>)
    requires offset + |bytes| <= |buf|
    ensures |Splice(buf, offset, bytes)| == |buf|
    ensures Splice(buf, offset, bytes)[offset..offset + |bytes|] == bytes
    ensures forall k :: 0 <= k < |buf| && !(offset <= k < offset + |bytes|) ==> Splice(buf, offset, bytes)[k] == buf[k]
  {
  }

  /** `buf.writeUInt8(value, offset)`. */
  method WriteUInt8(buf: array<byte>, value: nat, offset: nat)
    requires value < 256 && offset < buf.Length
    modifies buf
    ensures buf[..] == Splice(old(buf[..]), offset, [value])
  {
    buf[offset] := value;
  }

  /** `buf.writeUInt16LE(value, offset)`. */
  method WriteUInt16LE(buf: array<byte>, value: nat, offset: nat)
    requires value < 0x1_0000 && offset + 2 <= buf.Length
    modifies buf
    ensures buf[..] == Splice(old(buf[..]), offset, LE16(value))
  {
    buf[offset] := value % 256;
    buf[offset + 1] := value / 256;
  }

  /** `buf.writeUInt32LE(value, offset)`. */
  method WriteUInt32LE(buf: array<byte>, value: nat, offset: nat)
    requires value < 0x1_0000_0000 && offset + 4 <= buf.Length
    modifies buf
    ensures buf[..] == Splice(old(buf[..]), offset, LE32(value))
  {
    buf[offset] := value % 256;
    buf[offset + 1] := (value / 256) % 256;
    buf[offset + 2] := (value / 0x1_0000) % 256;
    buf[offset + 3] := value / 0x100_0000;
  }

  /** `source.copy(target, start)`, for a source that fits. */
  method Copy(source: seq<byte>, target: array<byte>, start: nat)
    requires start + |source| <= target.Length
    modifies target
    ensures target[..] == Splice(old(target[..]), start, source)
  {
    var i := 0;
    while i < |source|
      invariant 0 <= i <= |source|
      invariant forall k :: 0 <= k < target.Length && !(start <= k < start + i) ==> target[k] == old(target[k])
      invariant forall k :: start <= k < start + i ==> target[k] == source[k - start]
    {
      target[start + i] := source[i];
      i := i + 1;
    }
  }

  // ---------------------------------------------------------------------
  // Command images

  /** An HCI command packet: indicator, opcode, parameter length, parameters. */
  function CommandPacket(opcode: bv32, params: seq<byte>): (cmd: seq<byte>)
    requires opcode < 0x1_0000 && |params| < 256
  {
    [HCI_COMMAND_PKT] + LE16(opcode as int) + [|params|] + params
  }

  /** Splits a command packet into opcode and parameters; `None` unless it is well framed. */
  function ParseCommand(cmd: seq<byte>): (parsed: Option<(nat, seq<byte>)>) {
    if |cmd| >= 4 && cmd[0] == HCI_COMMAND_PKT && cmd[3] as int == |cmd| - 4 then
      Some((Decoder.ReadUInt16LE(cmd, 1), cmd[4..]))
    else None
  }

  /**
   * Every command image is well framed: indicator 0x01, the opcode in bytes
   * 1-2 little-endian, byte 3 the length of what follows; and it parses
   * back into exactly its opcode and parameters.
   */
  lemma CommandRoundTrip(opcode: bv32, params: seq<byte>)
    requires opcode < 0x1_0000 && |params| < 256
    ensures var cmd := CommandPacket(opcode, params);
      && |cmd| == 4 + |params|
      && cmd[0] == HCI_COMMAND_PKT
      && Decoder.ReadUInt16LE(cmd, 1) == opcode as int
      && cmd[3] as int == |cmd| - 4
      && ParseCommand(cmd) == Some((opcode as int, params))
  {
    var cmd := CommandPacket(opcode, params);
    LittleEndianRoundTrip(opcode as int, 0);
    assert cmd[1..3] == LE16(opcode as int);
    assert cmd[4..] == params;
  }

  function Flag(b: bool): byte {
    if b then 1 else 0
  }

  /** LE Set Scan Enable (section 7.8.11): enable and filter-duplicates flags. */
  function ScanEnableCommand(enabled: bool, duplicates: bool): seq<byte> {
    OpcodeConstants();
    CommandPacket(LE_SET_SCAN_ENABLE_CMD, [Flag(enabled), Flag(duplicates)])
  }

  /**
   * LE Set Scan Parameters (section 7.8.10): active scanning, interval and
   * window 0x0010 (10 ms), public own address, no filter policy.
   */
  function ScanParametersCommand(): seq<byte> {
    OpcodeConstants();
    CommandPacket(LE_SET_SCAN_PARAMETERS_CMD, [1] + LE16(0x0010) + LE16(0x0010) + [0, 0])
  }

  /** Read BD_ADDR (section 7.4.6): no parameters. */
  function ReadBdAddrCommand(): seq<byte> {
    OpcodeConstants();
    CommandPacket(READ_BD_ADDR_CMD, [])
  }

  /** The Set Event Mask mask, `Buffer.from('fffffbff07f8bf3d', 'hex')`. */
  const EVENT_MASK: seq<byte> := [0xff, 0xff, 0xfb, 0xff, 0x07, 0xf8, 0xbf, 0x3d]

  /** The LE Set Event Mask mask, `Buffer.from('1fff000000000000', 'hex')`. */
  const LE_EVENT_MASK: seq<byte> := [0x1f, 0xff, 0x00, 0x00, 0x00, 0x00, 0x00, 0x00]

  /** Eight octets render as their eight two-digit renderings, in order. */
  lemma HexStringEight(bs: seq<byte>)
    requires |bs| == 8
    ensures HexString(bs) == ByteHex(bs[0]) + ByteHex(bs[1]) + ByteHex(bs[2]) + ByteHex(bs[3])
                           + ByteHex(bs[4]) + ByteHex(bs[5]) + ByteHex(bs[6]) + ByteHex(bs[7])
  {
    assert HexString(bs[7..]) == ByteHex(bs[7]) by { assert bs[7..][1..] == []; }
    assert HexString(bs[6..]) == ByteHex(bs[6]) + HexString(bs[7..]) by { assert bs[6..][1..] == bs[7..]; }
    assert HexString(bs[5..]) == ByteHex(bs[5]) + HexString(bs[6..]) by { assert bs[5..][1..] == bs[6..]; }
    assert HexString(bs[4..]) == ByteHex(bs[4]) + HexString(bs[5..]) by { assert bs[4..][1..] == bs[5..]; }
    assert HexString(bs[3..]) == ByteHex(bs[3]) + HexString(bs[4..]) by { assert bs[3..][1..] == bs[4..]; }
    assert HexString(bs[2..]) == ByteHex(bs[2]) + HexString(bs[3..]) by { assert bs[2..][1..] == bs[3..]; }
    assert HexString(bs[1..]) == ByteHex(bs[1]) + HexString(bs[2..]) by { assert bs[1..][1..] == bs[2..]; }
  }

  lemma EventMaskRendering()
    ensures HexString(EVENT_MASK) == "fffffbff07f8bf3d"
  {
    HexStringEight(EVENT_MASK);
    assert ByteHex(0xff) == "ff" && ByteHex(0xfb) == "fb";
    assert ByteHex(0x07) == "07" && ByteHex(0xf8) == "f8";
    assert ByteHex(0xbf) == "bf" && ByteHex(0x3d) == "3d";
  }

  lemma LeEventMaskRendering()
    ensures HexString(LE_EVENT_MASK) == "1fff000000000000"
  {
    HexStringEight(LE_EVENT_MASK);
    assert ByteHex(0x1f) == "1f" && ByteHex(0xff) == "ff" && ByteHex(0) == "00";
  }

  /**
   * The two masks are the octets of the hex strings the source gives, and
   * those strings parse back into them.
   */
  lemma MaskHex()
    ensures HexString(EVENT_MASK) == "fffffbff07f8bf3d" && ParseHex("fffffbff07f8bf3d") == Some(EVENT_MASK)
    ensures HexString(LE_EVENT_MASK) == "1fff000000000000" && ParseHex("1fff000000000000") == Some(LE_EVENT_MASK)
  {
    EventMaskRendering();
    LeEventMaskRendering();
    HexStringRoundTrip(EVENT_MASK);
    HexStringRoundTrip(LE_EVENT_MASK);
  }

  /** Set Event Mask (section 7.3.1): the eight mask octets unchanged. */
  function EventMaskCommand(): seq<byte> {
    OpcodeConstants();
    CommandPacket(SET_EVENT_MASK_CMD, EVENT_MASK)
  }

  /** LE Set Event Mask (section 7.8.1): the eight mask octets unchanged. */
  function LeEventMaskCommand(): seq<byte> {
    OpcodeConstants();
    CommandPacket(LE_SET_EVENT_MASK_CMD, LE_EVENT_MASK)
  }

  // The exact octets of every command the listener can issue.

  lemma ScanEnableBytes(enabled: bool, duplicates: bool)
    ensures ScanEnableCommand(enabled, duplicates) == [0x01, 0x0c, 0x20, 0x02, Flag(enabled), Flag(duplicates)]
  {
    OpcodeConstants();
  }

  lemma ScanParametersBytes()
    ensures ScanParametersCommand() == [0x01, 0x0b, 0x20, 0x07, 0x01, 0x10, 0x00, 0x10, 0x00, 0x00, 0x00]
  {
    OpcodeConstants();
  }

  lemma ReadBdAddrBytes()
    ensures ReadBdAddrCommand() == [0x01, 0x09, 0x10, 0x00]
  {
    OpcodeConstants();
  }

  lemma EventMaskBytes()
    ensures EventMaskCommand() == [0x01, 0x01, 0x0c, 0x08] + EVENT_MASK
  {
    OpcodeConstants();
  }

  lemma LeEventMaskBytes()
    ensures LeEventMaskCommand() == [0x01, 0x01, 0x20, 0x08] + LE_EVENT_MASK
  {
    OpcodeConstants();
  }

  /** Whether bit `k` of a little-endian mask is set. */
  predicate MaskBit(mask: seq<byte>, k: nat)
    requires k < 8 * |mask|
  {
    ((mask[k / 8] as bv8) >> (k % 8)) & 1 == 1
  }

  /**
   * The masks, were they issued, would let through what the decoder reads:
   * Set Event Mask bit 61 enables the LE Meta event (event code 0x3e), and
   * LE Set Event Mask bit 1 enables the LE Advertising Report (sub-event
   * 0x02); bit n enables code n + 1 in both masks.
   */
  lemma MasksEnableDecodedEvents()
    ensures MaskBit(EVENT_MASK, EVT_LE_META_EVENT as int - 1)
    ensures MaskBit(LE_EVENT_MASK, EVT_LE_ADVERTISING_REPORT as int - 1)
  {
    assert EVENT_MASK[7] as bv8 == 0x3d && LE_EVENT_MASK[0] as bv8 == 0x1f;
  }

  // ---------------------------------------------------------------------
  // Socket filter

  /** The packet-type mask: event packets only. */
  const FILTER_TYPE_MASK: bv32 := 1 << HCI_EVENT_PKT
  /** Event codes 0-31: Command Complete and Command Status. */
  const FILTER_EVENT_MASK_1: bv32 := (1 << EVT_CMD_COMPLETE) | (1 << EVT_CMD_STATUS)
  /** Event codes 32-63: LE Meta. */
  const FILTER_EVENT_MASK_2: bv32 := 1 << (EVT_LE_META_EVENT - 32)

  /** The 14-octet filter: type mask, the two event-mask words and opcode 0. */
  function FilterImage(): seq<byte> {
    LE32(FILTER_TYPE_MASK as int) + LE32(FILTER_EVENT_MASK_1 as int) + LE32(FILTER_EVENT_MASK_2 as int) + LE16(0)
  }

  /** The filter's exact octets. */
  lemma FilterBytes()
    ensures FilterImage() == [0x10, 0, 0, 0, 0x00, 0xc0, 0, 0, 0, 0, 0, 0x40, 0, 0]
  {
    assert FILTER_TYPE_MASK as int == 0x10;
    assert FILTER_EVENT_MASK_1 as int == 0xc000;
    assert FILTER_EVENT_MASK_2 as int == 0x4000_0000;
  }

  /**
   * A filter read as BlueZ lays out its `struct hci_filter`: a 32-bit mask
   * of packet types, then a 64-bit mask of event codes in two little-endian
   * words.
   */
  function Word(filter: seq<byte>, offset: nat): bv32
    requires offset + 4 <= |filter|
  {
    ReadUInt32LE(filter, offset) as bv32
  }

  predicate Bit(word: bv32, k: nat)
    requires k < 32
  {
    (word >> k) & 1 == 1
  }

  predicate TypePasses(filter: seq<byte>, packetType: nat)
    requires |filter| == 14 && packetType < 32
  {
    Bit(Word(filter, 0), packetType)
  }

  predicate EventPasses(filter: seq<byte>, event: nat)
    requires |filter| == 14 && event < 64
  {
    if event < 32 then Bit(Word(filter, 4), event) else Bit(Word(filter, 8), event - 32)
  }

  /**
   * The filter lets through event packets and no other packet type, and of
   * the events exactly Command Complete, Command Status and LE Meta; so
   * both events the decoder acts on reach it.
   */
  lemma FilterPassesExactly(packetType: nat, event: nat)
    requires packetType < 32 && event < 64
    ensures |FilterImage()| == 14
    ensures TypePasses(FilterImage(), packetType) <==> packetType == HCI_EVENT_PKT as int
    ensures EventPasses(FilterImage(), event) <==>
      event == EVT_CMD_COMPLETE as int || event == EVT_CMD_STATUS as int || event == EVT_LE_META_EVENT as int
  {
    FilterWords();
    WordBits(packetType, event % 32);
  }

  /** Which bits the three filter words set. */
  lemma WordBits(t: nat, e: nat)
    requires t < 32 && e < 32
    ensures Bit(0x10, t) <==> t == 4
    ensures Bit(0xc000, e) <==> e == 14 || e == 15
    ensures Bit(0x4000_0000, e) <==> e == 30
  {
  }

  /** The filter's three mask words. */
  lemma FilterWords()
    ensures |FilterImage()| == 14
    ensures Word(FilterImage(), 0) == 0x10
    ensures Word(FilterImage(), 4) == 0xc000
    ensures Word(FilterImage(), 8) == 0x4000_0000
  {
    FilterBytes();
    assert ReadUInt32LE(FilterImage(), 0) == 0x10;
    assert ReadUInt32LE(FilterImage(), 4) == 0xc000;
    assert ReadUInt32LE(FilterImage(), 8) == 0x4000_0000;
  }

  // ---------------------------------------------------------------------
  // The socket and the encoders

  /**
   * The native HCI socket, reduced to what the listener does to it: which
   * device it is bound to (`None`: the default device), the filter it was
   * given, whether it was started, and every buffer written, in order.
   */
  class HciSocket {
    var bound: bool
    var device: Option<string>
    var filter: seq<byte>
    var started: bool
    var written: seq<seq<byte>>

    constructor ()
      ensures !bound && filter == [] && !started && written == []
    {
      bound := false;
      device := None;
      filter := [];
      started := false;
      written := [];
    }

    method BindRaw(device: Option<string>)
      modifies this
      ensures bound && this.device == device
      ensures filter == old(filter) && started == old(started) && written == old(written)
    {
      bound := true;
      this.device := device;
    }

    method SetFilter(filter: array<byte>)
      modifies this
      ensures this.filter == filter[..]
      ensures bound == old(bound) && device == old(device) && started == old(started) && written == old(written)
    {
      this.filter := filter[..];
    }

    method Start()
      modifies this
      ensures started
      ensures bound == old(bound) && device == old(device) && filter == old(filter) && written == old(written)
    {
      started := true;
    }

    method Write(data: array<byte>)
      modifies this
      ensures written == old(written) + [data[..]]
      ensures bound == old(bound) && device == old(device) && filter == old(filter) && started == old(started)
    {
      written := written + [data[..]];
    }
  }

  /** A fresh zero-filled buffer, as `Buffer.alloc(n)` gives. */
  method Alloc(n: nat) returns (buf: array<byte>)
    ensures fresh(buf) && buf.Length == n
    ensures forall k :: 0 <= k < n ==> buf[k] == 0
  {
    buf := new byte[n](_ => 0);
  }

  /** `setScanEnable`. */
  method SetScanEnable(socket: HciSocket, enabled: bool, duplicates: bool)
    modifies socket
    ensures socket.written == old(socket.written) + [ScanEnableCommand(enabled, duplicates)]
    ensures socket.bound == old(socket.bound) && socket.device == old(socket.device)
    ensures socket.filter == old(socket.filter) && socket.started == old(socket.started)
  {
    OpcodeConstants();
    var cmd := Alloc(6);
    WriteUInt8(cmd, HCI_COMMAND_PKT, 0);
    WriteUInt16LE(cmd, LE_SET_SCAN_ENABLE_CMD as int, 1);
    WriteUInt8(cmd, 0x02, 3);
    WriteUInt8(cmd, if enabled then 0x01 else 0x00, 4);
    WriteUInt8(cmd, if duplicates then 0x01 else 0x00, 5);
    ScanEnableBytes(enabled, duplicates);
    assert cmd[..] == ScanEnableCommand(enabled, duplicates);
    socket.Write(cmd);
  }

  /** `setScanParameters`. */
  method SetScanParameters(socket: HciSocket)
    modifies socket
    ensures socket.written == old(socket.written) + [ScanParametersCommand()]
    ensures socket.bound == old(socket.bound) && socket.device == old(socket.device)
    ensures socket.filter == old(socket.filter) && socket.started == old(socket.started)
  {
    OpcodeConstants();
    var cmd := Alloc(11);
    WriteUInt8(cmd, HCI_COMMAND_PKT, 0);
    WriteUInt16LE(cmd, LE_SET_SCAN_PARAMETERS_CMD as int, 1);
    WriteUInt8(cmd, 0x07, 3);
    WriteUInt8(cmd, 0x01, 4);
    WriteUInt16LE(cmd, 0x0010, 5);
    WriteUInt16LE(cmd, 0x0010, 7);
    WriteUInt8(cmd, 0x00, 9);
    WriteUInt8(cmd, 0x00, 10);
    ScanParametersBytes();
    assert cmd[..] == ScanParametersCommand();
    socket.Write(cmd);
  }

  /** `readBdAddr`. */
  method ReadBdAddr(socket: HciSocket)
    modifies socket
    ensures socket.written == old(socket.written) + [ReadBdAddrCommand()]
    ensures socket.bound == old(socket.bound) && socket.device == old(socket.device)
    ensures socket.filter == old(socket.filter) && socket.started == old(socket.started)
  {
    OpcodeConstants();
    var cmd := Alloc(4);
    WriteUInt8(cmd, HCI_COMMAND_PKT, 0);
    WriteUInt16LE(cmd, READ_BD_ADDR_CMD as int, 1);
    WriteUInt8(cmd, 0x0, 3);
    ReadBdAddrBytes();
    assert cmd[..] == ReadBdAddrCommand();
    socket.Write(cmd);
  }

  /** `setEventMask`; defined in the source but not called when a socket is opened. */
  method SetEventMask(socket: HciSocket)
    modifies socket
    ensures socket.written == old(socket.written) + [EventMaskCommand()]
    ensures socket.bound == old(socket.bound) && socket.device == old(socket.device)
    ensures socket.filter == old(socket.filter) && socket.started == old(socket.started)
  {
    OpcodeConstants();
    var cmd := Alloc(12);
    var eventMask := EVENT_MASK;
    WriteUInt8(cmd, HCI_COMMAND_PKT, 0);
    WriteUInt16LE(cmd, SET_EVENT_MASK_CMD as int, 1);
    WriteUInt8(cmd, |eventMask|, 3);
    Copy(eventMask, cmd, 4);
    EventMaskBytes();
    assert cmd[..] == EventMaskCommand();
    socket.Write(cmd);
  }

  /** `setLeEventMask`; defined in the source but not called when a socket is opened. */
  method SetLeEventMask(socket: HciSocket)
    modifies socket
    ensures socket.written == old(socket.written) + [LeEventMaskCommand()]
    ensures socket.bound == old(socket.bound) && socket.device == old(socket.device)
    ensures socket.filter == old(socket.filter) && socket.started == old(socket.started)
  {
    OpcodeConstants();
    var cmd := Alloc(12);
    var leEventMask := LE_EVENT_MASK;
    WriteUInt8(cmd, HCI_COMMAND_PKT, 0);
    WriteUInt16LE(cmd, LE_SET_EVENT_MASK_CMD as int, 1);
    WriteUInt8(cmd, |leEventMask|, 3);
    Copy(leEventMask, cmd, 4);
    LeEventMaskBytes();
    assert cmd[..] == LeEventMaskCommand();
    socket.Write(cmd);
  }

  /** `setFilter`. */
  method SetFilter(socket: HciSocket)
    modifies socket
    ensures socket.filter == FilterImage()
    ensures socket.bound == old(socket.bound) && socket.device == old(socket.device)
    ensures socket.written == old(socket.written) && socket.started == old(socket.started)
  {
    var filter := Alloc(14);
    var typeMask: bv32 := 1 << HCI_EVENT_PKT;
    var eventMask1: bv32 := (1 << EVT_CMD_COMPLETE) | (1 << EVT_CMD_STATUS);
    var eventMask2: bv32 := 1 << (EVT_LE_META_EVENT - 32);
    var opcode := 0;
    WriteUInt32LE(filter, typeMask as int, 0);
    WriteUInt32LE(filter, eventMask1 as int, 4);
    WriteUInt32LE(filter, eventMask2 as int, 8);
    WriteUInt16LE(filter, opcode, 12);
    FilterBytes();
    assert filter[..] == FilterImage();
    socket.SetFilter(filter);
  }

  /** The device a path selects: a missing or empty path binds the default device. */
  function DeviceOf(path: Option<string>): (device: Option<string>)
    ensures device.Some? <==> path.Some? && path.value != ""
    ensures device.Some? ==> device == path
  {
    if path.Some? && path.value != "" then path else None
  }

  /** The commands written when a socket is opened, in order. */
  function OpenSequence(): seq<seq<byte>> {
    [ScanEnableCommand(false, true), ScanParametersCommand(), ScanEnableCommand(true, true), ReadBdAddrCommand()]
  }

  /**
   * Opening writes four well-framed commands: scanning disabled, scan
   * parameters set, scanning enabled (both keeping duplicate filtering on),
   * and then the adapter's address asked for; neither event-mask command
   * is among them.
   */
  lemma OpenSequenceOpcodes()
    ensures |OpenSequence()| == 4
    ensures ParseCommand(OpenSequence()[0]) == Some((0x200c, [0, 1]))
    ensures ParseCommand(OpenSequence()[1]) == Some((0x200b, [1, 0x10, 0, 0x10, 0, 0, 0]))
    ensures ParseCommand(OpenSequence()[2]) == Some((0x200c, [1, 1]))
    ensures ParseCommand(OpenSequence()[3]) == Some((0x1009, []))
    ensures forall i :: 0 <= i < 4 ==>
      OpenSequence()[i] != EventMaskCommand() && OpenSequence()[i] != LeEventMaskCommand()
  {
    OpcodeConstants();
    CommandRoundTrip(LE_SET_SCAN_ENABLE_CMD, [0, 1]);
    CommandRoundTrip(LE_SET_SCAN_PARAMETERS_CMD, [1] + LE16(0x0010) + LE16(0x0010) + [0, 0]);
    CommandRoundTrip(LE_SET_SCAN_ENABLE_CMD, [1, 1]);
    CommandRoundTrip(READ_BD_ADDR_CMD, []);
    ScanEnableBytes(false, true);
    ScanEnableBytes(true, true);
    ScanParametersBytes();
    ReadBdAddrBytes();
    EventMaskBytes();
    LeEventMaskBytes();
  }

  /**
   * `openHciSocket`: bind, filter, start, then the scan commands and the
   * address request. The completion callback, which only stores the
   * socket and attaches the handlers, runs before the address request and
   * writes nothing.
   */
  method OpenHciSocket(path: Option<string>) returns (socket: HciSocket)
    ensures fresh(socket)
    ensures socket.bound && socket.device == DeviceOf(path)
    ensures socket.filter == FilterImage() && socket.started
    ensures socket.written == OpenSequence()
  {
    socket := new HciSocket();
    if path.Some? && path.value != "" {
      socket.BindRaw(path);
    } else {
      socket.BindRaw(None);
    }
    SetFilter(socket);
    socket.Start();
    SetScanEnable(socket, false, true);
    SetScanParameters(socket);
    SetScanEnable(socket, true, true);
    ReadBdAddr(socket);
  }

  /** The origin a listener stamps on its data: the path when one is given, else "socket". */
  function OriginOf(path: Option<string>): (origin: Origin)
    ensures origin != ""
    ensures path.Some? && path.value != "" ==> origin == path.value
    ensures path.None? || path.value == "" ==> origin == "socket"
  {
    if path.Some? && path.value != "" then path.value else "socket"
  }

  /**
   * Every origin is non-empty; listeners on different paths have different
   * origins; and a listener without a path (or with an empty one) has the
   * origin "socket".
   */
  lemma OriginDistinguishesPaths(p: string, q: string)
    ensures OriginOf(None) == OriginOf(Some("")) == "socket"
    ensures OriginOf(Some(p)) != "" && OriginOf(None) != ""
    ensures p != "" && q != "" ==> (OriginOf(Some(p)) == OriginOf(Some(q)) <==> p == q)
  {
  }

  /** The listener of lib/socketlistener.js: a decoder, an origin and an opened socket. */
  class SocketListener {
    const decoder: Decoder.HciDecoder
    const path: Option<string>
    const origin: Origin
    var socket: HciSocket

    constructor (decoder: Decoder.HciDecoder, path: Option<string>)
      ensures this.decoder == decoder && this.path == path && origin == OriginOf(path)
      ensures fresh(socket) && socket.bound && socket.device == DeviceOf(path)
      ensures socket.filter == FilterImage() && socket.started && socket.written == OpenSequence()
    {
      this.decoder := decoder;
      this.path := path;
      origin := OriginOf(path);
      var s := OpenHciSocket(path);
      socket := s;
    }

    /**
     * The socket's `data` handler: the buffer goes to the decoder with this
     * listener's origin and the capture time, which the clock supplies.
     */
    method HandleData(data: seq<byte>, time: Time)
      requires Decoder.ReadsInBounds(data)
      modifies decoder.hciManager
      ensures decoder.hciManager.Snapshot() == Decoder.Feed(old(decoder.hciManager.Snapshot()), data, origin, time)
    {
      decoder.HandleHciData(data, origin, time);
    }
  }
}
