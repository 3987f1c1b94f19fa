/**
 * The HCI event decoder (lib/hcidecoder.js): one raw buffer in the H4
 * framing of the Bluetooth Core Specification (Volume 4 Part A: a packet
 * indicator octet, then the event of Volume 4 Part E section 5.4.4) gives
 * at most one typed packet.
 *
 * The decoder is exactly as permissive as the code: it reads the LE
 * Advertising Report (Volume 4 Part E section 7.7.65.2) only at the fixed
 * offsets of the first report, takes the payload length from the buffer
 * length, and accepts a Command Complete for Read BD_ADDR (sections 7.7.14
 * and 7.4.6) whatever its status octet and whatever its declared length.
 */
module Decoder {
  import opened Wrappers
  import opened Text
  import opened Packet
  import Manager

  /** `Buffer.readUInt16LE(offset)`. */
  function ReadUInt16LE(data: seq<byte>, offset: nat): (v: nat)
    requires offset + 2 <= |data|
    ensures v < 0x1_0000
    ensures v % 256 == data[offset] && v / 256 == data[offset + 1]
  {
    data[offset] as int + 256 * data[offset + 1] as int
  }

  /** `Buffer.readInt8(offset)`: the octet read as two's complement. */
  function ReadInt8(data: seq<byte>, offset: nat): (v: int)
    requires offset < |data|
    ensures -128 <= v <= 127
    ensures (v + 256) % 256 == data[offset]
  {
    if data[offset] < 128 then data[offset] as int else data[offset] as int - 256
  }

  /** `Buffer.slice(start, end)` for non-negative bounds, clamped to the buffer. */
  function Slice(data: seq<byte>, start: nat, end: nat): (s: seq<byte>)
    ensures start <= end <= |data| ==> s == data[start..end]
    ensures end <= start || |data| <= start ==> s == []
  {
    var e := if end > |data| then |data| else end;
    if start >= e then [] else data[start..e]
  }

  /**
   * The reads `handleHciData` performs stay inside the buffer. Outside this
   * set Node throws: `readUInt8`/`readUInt16LE` raise a RangeError, and an
   * empty address slice makes `match` return null, on which `reverse()`
   * raises a TypeError.
   */
  predicate ReadsInBounds(data: seq<byte>) {
    && |data| >= 1
    && (data[0] == HCI_EVENT_PKT ==>
          && |data| >= 2
          && (data[1] == EVT_LE_META_EVENT ==>
                |data| >= 4 && (data[3] == EVT_LE_ADVERTISING_REPORT ==> |data| >= 13))
          && (data[1] == EVT_CMD_COMPLETE ==>
                |data| >= 6 && (ReadUInt16LE(data, 4) == READ_BD_ADDR_CMD as int ==> |data| >= 8)))
  }

  /** The GAP advertising type (0 to 4) mapped to the PDU type nibble. */
  const GAP_ADV_TYPE_MAP: seq<string> := ["0", "1", "6", "2", "4"]

  /**
   * The first characters of the packet string: JavaScript evaluates
   * `4 * addrType + map[advType]` as a number plus a string, so the decimal
   * rendering of `4 * addrType` is followed by the mapped type. Past the end
   * of the map the lookup is `undefined`, the sum is `NaN`, and appending the
   * length turns it into the text "NaN".
   */
  function PduPrefix(addrType: byte, advType: byte): (prefix: string)
    ensures advType >= 5 ==> prefix == "NaN"
    ensures advType < 5 ==>
      && |prefix| >= 2
      && (forall i :: 0 <= i < |prefix| ==> IsDecimalDigit(prefix[i]))
      && ParseDecimal(prefix[..|prefix| - 1]) == 4 * addrType
      && (prefix[0] == '0' ==> addrType == 0 && |prefix| == 2)
      && prefix[|prefix| - 1] == GAP_ADV_TYPE_MAP[advType][0]
  {
    ToDecimalRoundTrip(4 * addrType);
    assert advType < 5 ==> (ToDecimal(4 * addrType) + GAP_ADV_TYPE_MAP[advType])[..|ToDecimal(4 * addrType)|] == ToDecimal(4 * addrType);
    if advType < |GAP_ADV_TYPE_MAP| then ToDecimal(4 * addrType) + GAP_ADV_TYPE_MAP[advType]
    else "NaN"
  }

  /** `convertRawAddress`: the six address octets, last first, each as two hex digits. */
  function ConvertRawAddress(raw: seq<byte>): (id: string)
    requires |raw| == 6
    ensures id == HexString(Reverse(raw))
    ensures |id| == 12 && forall i :: 0 <= i < |id| ==> IsHexDigit(id[i])
    ensures ParseHex(id) == Some(Reverse(raw))
  {
    RawAddressIsReversedHex(raw);
    HexStringRoundTrip(Reverse(raw));
    HexStringIsHex(Reverse(raw));
    PadHex2(raw[5]) + PadHex2(raw[4]) + PadHex2(raw[3]) + PadHex2(raw[2]) + PadHex2(raw[1]) + PadHex2(raw[0])
  }

  lemma RawAddressIsReversedHex(raw: seq<byte>)
    requires |raw| == 6
    ensures PadHex2(raw[5]) + PadHex2(raw[4]) + PadHex2(raw[3]) + PadHex2(raw[2]) + PadHex2(raw[1]) + PadHex2(raw[0])
            == HexString(Reverse(raw))
  {
    var a, b, c, d, e, f := raw[5], raw[4], raw[3], raw[2], raw[1], raw[0];
    PadHex2OfByte(a);
    PadHex2OfByte(b);
    PadHex2OfByte(c);
    PadHex2OfByte(d);
    PadHex2OfByte(e);
    PadHex2OfByte(f);
    ReversedSix(raw);
    HexStringSix(a, b, c, d, e, f);
  }

  lemma ReversedSix<T>(raw: seq<T>)
    requires |raw| == 6
    ensures Reverse(raw) == [raw[5], raw[4], raw[3], raw[2], raw[1], raw[0]]
  {
    var r := [raw[5], raw[4], raw[3], raw[2], raw[1], raw[0]];
    ReverseLength(raw);
    forall k | 0 <= k < 6 ensures Reverse(raw)[k] == r[k] {
      ReverseAt(raw, k);
    }
  }

  lemma HexStringSix(a: byte, b: byte, c: byte, d: byte, e: byte, f: byte)
    ensures HexString([a, b, c, d, e, f])
            == ByteHex(a) + ByteHex(b) + ByteHex(c) + ByteHex(d) + ByteHex(e) + ByteHex(f)
  {
    assert HexString([f]) == ByteHex(f) by { assert [f][1..] == []; }
    assert HexString([e, f]) == ByteHex(e) + ByteHex(f) by { assert [e, f][1..] == [f]; }
    assert HexString([d, e, f]) == ByteHex(d) + ByteHex(e) + ByteHex(f) by { assert [d, e, f][1..] == [e, f]; }
    assert HexString([c, d, e, f]) == ByteHex(c) + ByteHex(d) + ByteHex(e) + ByteHex(f) by {
      assert [c, d, e, f][1..] == [d, e, f];
    }
    assert HexString([b, c, d, e, f]) == ByteHex(b) + ByteHex(c) + ByteHex(d) + ByteHex(e) + ByteHex(f) by {
      assert [b, c, d, e, f][1..] == [c, d, e, f];
    }
    assert [a, b, c, d, e, f][1..] == [b, c, d, e, f];
  }

  lemma {:induction false} HexStringIsHex(bs: seq<byte>)
    ensures forall i :: 0 <= i < |HexString(bs)| ==> IsHexDigit(HexString(bs)[i])
  {
    if bs != [] {
      HexStringIsHex(bs[1..]);
      HexDigitRoundTrip(bs[0] / 16);
      HexDigitRoundTrip(bs[0] % 16);
    }
  }

  /** `decodeLeAdvertisingReport`: the first report, read at fixed offsets. */
  function DecodeLeAdvertisingReport(data: seq<byte>, origin: Origin, time: Time): (p: HciPacket)
    requires |data| >= 13
    ensures p.DecodedRadioSignal? && p.origin == origin && p.time == time
    ensures p.transmitterId == HexString(Reverse(data[7..13]))
    ensures p.transmitterIdType == if data[6] == 0 then EUI48 else RND48
    ensures p.rssiSignature == [RssiEntry(ReadInt8(data, |data| - 1), None, None)]
    ensures p.packets == [PduPrefix(data[6], data[5]) + ByteHex((|data| - 9) % 256)
                          + HexString(data[7..13]) + HexString(Slice(data, 14, |data| - 1))]
  {
    var gapAdvType := data[5];
    var gapAddrType := data[6];
    var gapAddr := data[7..13];
    var gapAdvLength := |data| - 9;
    var transmitterId := ConvertRawAddress(gapAddr);
    var transmitterIdType := if gapAddrType > 0 then RND48 else EUI48;
    var eir := Slice(data, 14, |data| - 1);
    var rssi := ReadInt8(data, |data| - 1);
    var packet := PduPrefix(gapAddrType, gapAdvType) + PadHex2(gapAdvLength)
                  + HexString(gapAddr) + HexString(eir);
    PadHex2IsLowByte(gapAdvLength);
    NewHciPacket(TYPE_DECODED_RADIO_SIGNAL,
                 RadioDecoding(transmitterId, transmitterIdType, [RssiEntry(rssi, None, None)], [packet]),
                 origin, time)
  }

  /** The `address` of a Command Complete for Read BD_ADDR: every octet from offset 7 on, reversed. */
  function ReadAddressOf(data: seq<byte>): (address: string)
    requires |data| >= 8
    ensures address == HexString(Reverse(data[7..]))
    ensures ParseHex(address) == Some(Reverse(data[7..]))
  {
    var result := data[7..];
    ReversedPairsAreReversedHex(result);
    HexStringRoundTrip(Reverse(result));
    Join(Reverse(MatchPairs(HexString(result))))
  }

  /**
   * `handleHciData`: the packet forwarded to the manager, if any. An event
   * other than LE Meta and Command Complete, an LE sub-event other than the
   * advertising report, and a completed command other than Read BD_ADDR
   * produce nothing.
   */
  function Decode(data: seq<byte>, origin: Origin, time: Time): (r: Option<HciPacket>)
    requires ReadsInBounds(data)
    ensures r.Some? ==> r.value.origin == origin && r.value.time == time && !r.value.Undefined?
    ensures data[0] != HCI_EVENT_PKT ==> r == None
    ensures (r.Some? && r.value.DecodedRadioSignal?) <==>
      data[0] == HCI_EVENT_PKT && data[1] == EVT_LE_META_EVENT && data[3] == EVT_LE_ADVERTISING_REPORT
    ensures (r.Some? && r.value.ReadAddressCommand?) <==>
      data[0] == HCI_EVENT_PKT && data[1] == EVT_CMD_COMPLETE && ReadUInt16LE(data, 4) == READ_BD_ADDR_CMD as int
    ensures r.Some? && r.value.ReadAddressCommand? ==> r.value.address == HexString(Reverse(data[7..]))
    ensures r.Some? && r.value.DecodedRadioSignal? ==> r.value == DecodeLeAdvertisingReport(data, origin, time)
  {
    if data[0] != HCI_EVENT_PKT then None
    else if data[1] == EVT_LE_META_EVENT then
      if data[3] == EVT_LE_ADVERTISING_REPORT then Some(DecodeLeAdvertisingReport(data, origin, time))
      else None
    else if data[1] == EVT_CMD_COMPLETE then
      var cmd := ReadUInt16LE(data, 4);
      if cmd == READ_BD_ADDR_CMD as int then
        Some(NewHciPacket(TYPE_READ_BD_ADDR_CMD, AddressContent(ReadAddressOf(data)), origin, time))
      else None
    else None
  }

  // Reference encodings of the two events the decoder understands, laid out
  // as the Core Specification frames them (declared length included).

  /** An LE Meta event carrying one LE Advertising Report. */
  function AdvertisingReportEvent(advType: byte, addrType: byte, addr: seq<byte>,
                                  payload: seq<byte>, rssi: int): (e: seq<byte>)
    requires |addr| == 6 && |payload| <= 243 && -128 <= rssi <= 127
    ensures |e| == 15 + |payload| && e[2] == |e| - 3
  {
    [HCI_EVENT_PKT, EVT_LE_META_EVENT, 12 + |payload|, EVT_LE_ADVERTISING_REPORT, 1, advType, addrType]
    + addr + [|payload|] + payload + [(rssi + 256) % 256]
  }

  /** A Command Complete event: one command credit, the opcode, a status octet and return parameters. */
  function CommandCompleteEvent(opcode: nat, status: byte, returned: seq<byte>): (e: seq<byte>)
    requires opcode < 0x10000 && |returned| <= 251
    ensures |e| == 7 + |returned| && e[2] == |e| - 3
  {
    [HCI_EVENT_PKT, EVT_CMD_COMPLETE, 4 + |returned|, 1, opcode % 256, opcode / 256, status] + returned
  }

  /**
   * A well-formed single-report advertising event decodes to its own
   * fields: the address reversed as the transmitter id, the address kind,
   * the signed RSSI, and a packet string whose length octet is the payload
   * length plus the six address octets, followed by the address in wire
   * order and the payload.
   */
  lemma DecodesAdvertisingReport(advType: byte, addrType: byte, addr: seq<byte>, payload: seq<byte>,
                                 rssi: int, origin: Origin, time: Time)
    requires |addr| == 6 && |payload| <= 243 && -128 <= rssi <= 127
    ensures var e := AdvertisingReportEvent(advType, addrType, addr, payload, rssi);
      && ReadsInBounds(e)
      && Decode(e, origin, time) == Some(DecodedRadioSignal(
           HexString(Reverse(addr)),
           if addrType == 0 then EUI48 else RND48,
           [PduPrefix(addrType, advType) + ByteHex(|payload| + 6) + HexString(addr) + HexString(payload)],
           [RssiEntry(rssi, None, None)],
           origin, time))
  {
    var e := AdvertisingReportEvent(advType, addrType, addr, payload, rssi);
    AdvertisingReportEventFields(advType, addrType, addr, payload, rssi);
    var p := DecodeLeAdvertisingReport(e, origin, time);
    assert Decode(e, origin, time) == Some(p);
  }

  /** Where the decoder finds each field of an encoded advertising report. */
  lemma AdvertisingReportEventFields(advType: byte, addrType: byte, addr: seq<byte>, payload: seq<byte>, rssi: int)
    requires |addr| == 6 && |payload| <= 243 && -128 <= rssi <= 127
    ensures var e := AdvertisingReportEvent(advType, addrType, addr, payload, rssi);
      && e[0] == HCI_EVENT_PKT && e[1] == EVT_LE_META_EVENT && e[3] == EVT_LE_ADVERTISING_REPORT
      && e[5] == advType && e[6] == addrType && ReadsInBounds(e)
      && e[7..13] == addr && Slice(e, 14, |e| - 1) == payload
      && ReadInt8(e, |e| - 1) == rssi && (|e| - 9) % 256 == |payload| + 6
  {
    var e := AdvertisingReportEvent(advType, addrType, addr, payload, rssi);
    assert e[0] == HCI_EVENT_PKT && e[1] == EVT_LE_META_EVENT && e[3] == EVT_LE_ADVERTISING_REPORT;
    assert e[7..13] == addr;
    assert e[14..|e| - 1] == payload;
    assert e[|e| - 1] == (rssi + 256) % 256;
  }

  /**
   * A Command Complete for Read BD_ADDR decodes to the returned octets
   * reversed, and the status octet is never inspected: a failed command
   * yields an address packet too.
   */
  lemma DecodesReadBdAddrComplete(status: byte, returned: seq<byte>, origin: Origin, time: Time)
    requires 1 <= |returned| <= 251
    ensures var e := CommandCompleteEvent(READ_BD_ADDR_CMD as int, status, returned);
      && ReadsInBounds(e)
      && Decode(e, origin, time) == Some(ReadAddressCommand(HexString(Reverse(returned)), origin, time))
  {
    var e := CommandCompleteEvent(READ_BD_ADDR_CMD as int, status, returned);
    CommandCompleteEventFields(READ_BD_ADDR_CMD as int, status, returned);
    var address := ReadAddressOf(e);
  }

  /** Where the decoder finds each field of an encoded Command Complete event. */
  lemma CommandCompleteEventFields(opcode: nat, status: byte, returned: seq<byte>)
    requires opcode < 0x10000 && |returned| <= 251
    requires opcode == READ_BD_ADDR_CMD as int ==> |returned| >= 1
    ensures var e := CommandCompleteEvent(opcode, status, returned);
      && e[0] == HCI_EVENT_PKT && e[1] == EVT_CMD_COMPLETE && e[1] != EVT_LE_META_EVENT
      && ReadUInt16LE(e, 4) == opcode && e[6] == status && e[7..] == returned
      && ReadsInBounds(e)
  {
    var e := CommandCompleteEvent(opcode, status, returned);
    assert e[4] == opcode % 256 && e[5] == opcode / 256;
    assert e[7..] == returned;
  }

  /** Any other completed command produces nothing. */
  lemma OtherCommandCompleteIgnored(opcode: nat, status: byte, returned: seq<byte>, origin: Origin, time: Time)
    requires opcode < 0x10000 && opcode != READ_BD_ADDR_CMD as int && |returned| <= 251
    ensures var e := CommandCompleteEvent(opcode, status, returned);
      ReadsInBounds(e) && Decode(e, origin, time) == None
  {
    CommandCompleteEventFields(opcode, status, returned);
  }

  /**
   * Only the first report is decoded: the report count at offset 4 of an
   * LE Meta event is never consulted, so an event announcing several
   * reports decodes exactly as one announcing a single report, to one
   * packet at most.
   */
  lemma ReportCountIgnored(data: seq<byte>, count: byte, origin: Origin, time: Time)
    requires ReadsInBounds(data) && |data| >= 5
    requires data[0] == HCI_EVENT_PKT && data[1] == EVT_LE_META_EVENT
    ensures ReadsInBounds(data[4 := count])
    ensures Decode(data[4 := count], origin, time) == Decode(data, origin, time)
  {
    var d := data[4 := count];
    if d[0] == HCI_EVENT_PKT && d[1] == EVT_LE_META_EVENT && d[3] == EVT_LE_ADVERTISING_REPORT {
      assert d[7..13] == data[7..13];
      assert Slice(d, 14, |d| - 1) == Slice(data, 14, |data| - 1);
    }
  }

  /** The buffer `emitAddress` feeds the decoder (lib/testlistener.js). */
  const TEST_ADDRESS_EVENT: seq<byte> := [0x04, 0x0e, 0x0a, 0x01, 0x09, 0x10, 0x00, 0x00, 0x00, 0x00, 0x00, 0x00, 0x00]

  /** The buffer `emitRadioDecodings` feeds the decoder at its default RSSI of -70 (0xba). */
  const TEST_RADIO_EVENT: seq<byte> :=
    [0x04, 0x3e, 0x21, 0x02, 0x01, 0x02, 0x00, 0x66, 0x55, 0x44, 0x33, 0x22, 0x11, 0x15]
    + TEST_RADIO_PAYLOAD + [0xba]

  const TEST_RADIO_PAYLOAD: seq<byte> :=
    [0x02, 0x01, 0x06, 0x11, 0x07, 0x44, 0x49, 0x55, 0x55, 0x20, 0x65,
     0x76, 0x69, 0x74, 0x63, 0x41, 0x79, 0x6c, 0x65, 0x65, 0x72]

  /** An octet whose two hex digits are both `d`. */
  lemma RepeatedDigitOctet(d: nat)
    requires 0 <= d <= 9
    ensures ByteHex(17 * d) == [('0' as int + d) as char, ('0' as int + d) as char]
  {
    assert (17 * d) / 16 == d && (17 * d) % 16 == d;
  }

  /** The all-zero address reads the same both ways round and renders as twelve zeros. */
  lemma ZeroAddressHex()
    ensures Reverse([0, 0, 0, 0, 0, 0]) == [0, 0, 0, 0, 0, 0]
    ensures HexString([0, 0, 0, 0, 0, 0]) == "000000000000"
  {
    ReversedSix([0, 0, 0, 0, 0, 0]);
    HexStringSix(0, 0, 0, 0, 0, 0);
    RepeatedDigitOctet(0);
  }

  /** The test listener's address event yields the all-zero address. */
  lemma TestAddressVector(origin: Origin, time: Time)
    ensures ReadsInBounds(TEST_ADDRESS_EVENT)
    ensures Decode(TEST_ADDRESS_EVENT, origin, time) == Some(ReadAddressCommand("000000000000", origin, time))
  {
    var zeros: seq<byte> := [0, 0, 0, 0, 0, 0];
    OpcodeConstants();
    assert TEST_ADDRESS_EVENT == CommandCompleteEvent(READ_BD_ADDR_CMD as int, 0, zeros);
    DecodesReadBdAddrComplete(0, zeros, origin, time);
    ZeroAddressHex();
  }

  /** The six octets 0x11 .. 0x66 render as the twelve digits 1 .. 6, each twice. */
  lemma AscendingPairsHex()
    ensures HexString([0x11, 0x22, 0x33, 0x44, 0x55, 0x66]) == "112233445566"
  {
    RepeatedDigitOctet(1);
    RepeatedDigitOctet(2);
    RepeatedDigitOctet(3);
    RepeatedDigitOctet(4);
    RepeatedDigitOctet(5);
    RepeatedDigitOctet(6);
    HexStringSix(0x11, 0x22, 0x33, 0x44, 0x55, 0x66);
  }

  /** The test transmitter's address in wire order and in display order. */
  lemma TestTransmitterHex()
    ensures HexString(Reverse([0x66, 0x55, 0x44, 0x33, 0x22, 0x11])) == "112233445566"
    ensures HexString([0x66, 0x55, 0x44, 0x33, 0x22, 0x11]) == "665544332211"
  {
    ReversedSix([0x66, 0x55, 0x44, 0x33, 0x22, 0x11]);
    AscendingPairsHex();
    RepeatedDigitOctet(1);
    RepeatedDigitOctet(2);
    RepeatedDigitOctet(3);
    RepeatedDigitOctet(4);
    RepeatedDigitOctet(5);
    RepeatedDigitOctet(6);
    HexStringSix(0x66, 0x55, 0x44, 0x33, 0x22, 0x11);
  }

  /** The packet header and length of the test advertisement: public address, scannable type, 21 payload octets. */
  lemma TestPacketHeader()
    ensures PduPrefix(0, 2) + ByteHex(21 + 6) + "665544332211" == "061b665544332211"
  {
    assert ToDecimal(0) == "0";
    assert 27 / 16 == 1 && 27 % 16 == 11;
    assert HexDigit(1) == '1' && HexDigit(11) == 'b';
  }

  /**
   * The test listener's radio event yields transmitter 112233445566 (a
   * public address), RSSI -70, and a packet string that starts with the
   * header "06", the length "1b" and the address in wire order.
   */
  lemma TestRadioVector(origin: Origin, time: Time)
    ensures ReadsInBounds(TEST_RADIO_EVENT)
    ensures var r := Decode(TEST_RADIO_EVENT, origin, time);
      && r.Some? && r.value.DecodedRadioSignal?
      && r.value.transmitterId == "112233445566"
      && r.value.transmitterIdType == EUI48
      && r.value.rssiSignature == [RssiEntry(-70, None, None)]
      && |r.value.packets| == 1
      && r.value.packets[0] == "061b665544332211" + HexString(TEST_RADIO_PAYLOAD)
  {
    var addr: seq<byte> := [0x66, 0x55, 0x44, 0x33, 0x22, 0x11];
    assert TEST_RADIO_EVENT == AdvertisingReportEvent(2, 0, addr, TEST_RADIO_PAYLOAD, -70);
    DecodesAdvertisingReport(2, 0, addr, TEST_RADIO_PAYLOAD, -70, origin, time);
    TestTransmitterHex();
    TestPacketHeader();
  }

  /** What one buffer does to a manager: the decoded packet, if any, is handled. */
  function Feed(s: Manager.State, data: seq<byte>, origin: Origin, time: Time): (t: Manager.State)
    requires ReadsInBounds(data)
    ensures !(data[0] == HCI_EVENT_PKT
              && ((data[1] == EVT_LE_META_EVENT && data[3] == EVT_LE_ADVERTISING_REPORT)
                  || (data[1] == EVT_CMD_COMPLETE && ReadUInt16LE(data, 4) == READ_BD_ADDR_CMD as int)))
            ==> t == s
    ensures data[0] == HCI_EVENT_PKT && data[1] == EVT_CMD_COMPLETE && ReadUInt16LE(data, 4) == READ_BD_ADDR_CMD as int ==>
      && t.radiosByOrigin == s.radiosByOrigin[origin := Manager.Radio(HexString(Reverse(data[7..])), EUI48)]
      && t.infrastructureMessages == s.infrastructureMessages + [ReadAddressCommand(HexString(Reverse(data[7..])), origin, time)]
      && t.raddecs == s.raddecs
    ensures data[0] == HCI_EVENT_PKT && data[1] == EVT_LE_META_EVENT && data[3] == EVT_LE_ADVERTISING_REPORT ==>
      && t.radiosByOrigin == s.radiosByOrigin
      && t.infrastructureMessages == s.infrastructureMessages
      && |t.raddecs| == |s.raddecs| + (if origin in s.radiosByOrigin then 1 else 0)
      && t.raddecs[..|s.raddecs|] == s.raddecs
    ensures data[0] == HCI_EVENT_PKT && data[1] == EVT_LE_META_EVENT && data[3] == EVT_LE_ADVERTISING_REPORT
            && origin in s.radiosByOrigin ==>
      t.raddecs == s.raddecs + [Manager.RaddecOf(DecodeLeAdvertisingReport(data, origin, time), s.radiosByOrigin[origin])]
  {
    match Decode(data, origin, time)
    case None => s
    case Some(p) => Manager.Handle(s, p)
  }

  /** From the empty manager, an address packet and then a single-entry radio signal on the same origin. */
  lemma FirstRaddec(a: HciPacket, p: HciPacket)
    requires a.ReadAddressCommand? && p.DecodedRadioSignal? && a.origin == p.origin
    requires |p.rssiSignature| == 1 && p.rssiSignature[0].receiverId == None && p.rssiSignature[0].receiverIdType == None
    ensures var s := Manager.Handle(Manager.Handle(Manager.INITIAL, a), p);
      && s.radiosByOrigin == map[a.origin := Manager.Radio(a.address, EUI48)]
      && s.infrastructureMessages == [a]
      && |s.raddecs| == 1
      && s.raddecs[0].transmitterId == p.transmitterId
      && s.raddecs[0].origin == p.origin && s.raddecs[0].time == p.time
      && s.raddecs[0].rssiSignature == [RssiEntry(p.rssiSignature[0].rssi, Some(a.address), Some(EUI48))]
  {
    Manager.AttributedAfterAddress(Manager.INITIAL, a, p);
  }

  /**
   * The test listener's sequence on one origin: its address event first
   * records receiver 000000000000 and emits it as an infrastructure message;
   * its radio event then yields one raddec attributed to that receiver.
   */
  lemma AddressThenRadio(origin: Origin, t1: Time, t2: Time)
    ensures ReadsInBounds(TEST_ADDRESS_EVENT) && ReadsInBounds(TEST_RADIO_EVENT)
    ensures var s := Feed(Feed(Manager.INITIAL, TEST_ADDRESS_EVENT, origin, t1), TEST_RADIO_EVENT, origin, t2);
      && s.radiosByOrigin == map[origin := Manager.Radio("000000000000", EUI48)]
      && s.infrastructureMessages == [ReadAddressCommand("000000000000", origin, t1)]
      && |s.raddecs| == 1
      && s.raddecs[0].transmitterId == "112233445566"
      && s.raddecs[0].origin == origin && s.raddecs[0].time == t2
      && s.raddecs[0].rssiSignature == [RssiEntry(-70, Some("000000000000"), Some(EUI48))]
  {
    TestAddressVector(origin, t1);
    TestRadioVector(origin, t2);
    var p := Decode(TEST_RADIO_EVENT, origin, t2).value;
    FirstRaddec(ReadAddressCommand("000000000000", origin, t1), p);
  }

  /** Radio data that arrives before its origin's address event is dropped. */
  lemma RadioBeforeAddress(origin: Origin, t1: Time, t2: Time)
    ensures ReadsInBounds(TEST_ADDRESS_EVENT) && ReadsInBounds(TEST_RADIO_EVENT)
    ensures var s := Feed(Feed(Manager.INITIAL, TEST_RADIO_EVENT, origin, t1), TEST_ADDRESS_EVENT, origin, t2);
      && s.raddecs == []
      && s.radiosByOrigin == map[origin := Manager.Radio("000000000000", EUI48)]
  {
    TestAddressVector(origin, t2);
    TestRadioVector(origin, t1);
  }

  /**
   * The decoder of lib/hcidecoder.js, bound to the manager it forwards to.
   * `queuesByOrigin` is never read or written after construction and is
   * not modelled.
   */
  class HciDecoder {
    const hciManager: Manager.HciManager

    constructor (hciManager: Manager.HciManager)
      ensures this.hciManager == hciManager
    {
      this.hciManager := hciManager;
    }

    /** `handleHciData`: decode one buffer and hand any packet to the manager. */
    method HandleHciData(data: seq<byte>, origin: Origin, time: Time)
      requires ReadsInBounds(data)
      modifies hciManager
      ensures hciManager.Snapshot() == Feed(old(hciManager.Snapshot()), data, origin, time)
    {
      var r := Decode(data, origin, time);
      if r.Some? {
        hciManager.HandleHciPacket(r.value);
      }
    }
  }
}
