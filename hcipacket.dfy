/**
 * HCI constants and the tagged packet record the decoder hands to the
 * manager (lib/hcipacket.js).
 *
 * Command opcodes follow the Bluetooth Core Specification, Volume 4 Part E
 * section 5.4.1: the 6-bit group field (OGF) above the 10-bit command field
 * (OCF). They are 32-bit values, as JavaScript's bitwise operators produce.
 * JavaScript's `<<` binds tighter than `|`, so `OCF | OGF << 10` means
 * `OCF | (OGF << 10)`; Dafny ranks the two the other way round, hence the
 * explicit parentheses below.
 */
module Packet {
  import opened Wrappers
  import opened Text

  const HCI_COMMAND_PKT: byte := 0x01
  const HCI_ACLDATA_PKT: byte := 0x02
  const HCI_EVENT_PKT: byte := 0x04
  const EVT_DISCONN_COMPLETE: byte := 0x05
  const EVT_ENCRYPT_CHANGE: byte := 0x08
  const EVT_CMD_COMPLETE: byte := 0x0e
  const EVT_CMD_STATUS: byte := 0x0f
  const EVT_NUMBER_OF_COMPLETED_PACKETS: byte := 0x13
  const EVT_LE_META_EVENT: byte := 0x3e
  const EVT_LE_ADVERTISING_REPORT: byte := 0x02
  const HCI_SUCCESS: byte := 0

  const OGF_INFO_PARAM: bv32 := 0x04
  const OGF_HOST_CTL: bv32 := 0x03
  const OGF_LE_CTL: bv32 := 0x08
  const OCF_READ_BD_ADDR: bv32 := 0x0009
  const OCF_LE_SET_SCAN_PARAMETERS: bv32 := 0x000b
  const OCF_LE_SET_SCAN_ENABLE: bv32 := 0x000c
  const OCF_SET_EVENT_MASK: bv32 := 0x0001
  const OCF_LE_SET_EVENT_MASK: bv32 := 0x0001

  const LE_SET_SCAN_PARAMETERS_CMD: bv32 := OCF_LE_SET_SCAN_PARAMETERS | (OGF_LE_CTL << 10)
  const LE_SET_SCAN_ENABLE_CMD: bv32 := OCF_LE_SET_SCAN_ENABLE | (OGF_LE_CTL << 10)
  const SET_EVENT_MASK_CMD: bv32 := OCF_SET_EVENT_MASK | (OGF_HOST_CTL << 10)
  const LE_SET_EVENT_MASK_CMD: bv32 := OCF_LE_SET_EVENT_MASK | (OGF_LE_CTL << 10)
  const READ_BD_ADDR_CMD: bv32 := OCF_READ_BD_ADDR | (OGF_INFO_PARAM << 10)

  /** An opcode packs the group field above the 10-bit command field. */
  function Opcode(ogf: bv32, ocf: bv32): bv32 {
    ocf | (ogf << 10)
  }

  /** Unpacking an opcode gives back both fields, and the opcode fits in 16 bits. */
  lemma OpcodeFields(ogf: bv32, ocf: bv32)
    requires ogf < 0x40 && ocf < 0x400
    ensures Opcode(ogf, ocf) >> 10 == ogf
    ensures Opcode(ogf, ocf) & 0x3ff == ocf
    ensures Opcode(ogf, ocf) < 0x10000
  {
  }

  /**
   * The five command opcodes have the values the Core Specification assigns,
   * each unpacks to its own group and command fields, and the two event-mask
   * commands differ although their command fields are equal.
   */
  lemma OpcodeConstants()
    ensures READ_BD_ADDR_CMD == Opcode(OGF_INFO_PARAM, OCF_READ_BD_ADDR) == 0x1009
    ensures LE_SET_SCAN_PARAMETERS_CMD == Opcode(OGF_LE_CTL, OCF_LE_SET_SCAN_PARAMETERS) == 0x200b
    ensures LE_SET_SCAN_ENABLE_CMD == Opcode(OGF_LE_CTL, OCF_LE_SET_SCAN_ENABLE) == 0x200c
    ensures SET_EVENT_MASK_CMD == Opcode(OGF_HOST_CTL, OCF_SET_EVENT_MASK) == 0x0c01
    ensures LE_SET_EVENT_MASK_CMD == Opcode(OGF_LE_CTL, OCF_LE_SET_EVENT_MASK) == 0x2001
    ensures OCF_SET_EVENT_MASK == OCF_LE_SET_EVENT_MASK && SET_EVENT_MASK_CMD != LE_SET_EVENT_MASK_CMD
  {
    OpcodeFields(OGF_INFO_PARAM, OCF_READ_BD_ADDR);
  }

  const TYPE_DECODED_RADIO_SIGNAL: string := "decodedRadioSignal"
  const TYPE_READ_BD_ADDR_CMD: string := "readAddressCommand"
  const TYPE_UNDEFINED: string := "undefined"

  /** The unique identifier of one data stream (a device path or "socket"). */
  type Origin = string

  /** The capture time, taken from the clock by the caller; opaque here. */
  type Time = int

  /** Identifier kinds of the advlib-identifier library: public or random 48-bit. */
  datatype IdType = EUI48 | RND48

  /**
   * One entry of a radio signal's RSSI signature. The decoder sets only
   * `rssi`; the manager later stamps the receiver onto the entry.
   */
  datatype RssiEntry = RssiEntry(rssi: int, receiverId: Option<string>, receiverIdType: Option<IdType>)

  /** The content object handed to the packet constructor (`content || {}` is `NoContent`). */
  datatype Content =
    | RadioDecoding(transmitterId: string, transmitterIdType: IdType,
                    rssiSignature: seq<RssiEntry>, packets: seq<string>)
    | AddressContent(address: string)
    | NoContent

  /** An HCI packet: one variant per packet type, each with its origin and capture time. */
  datatype HciPacket =
    | DecodedRadioSignal(transmitterId: string, transmitterIdType: IdType, packets: seq<string>,
                         rssiSignature: seq<RssiEntry>, origin: Origin, time: Time)
    | ReadAddressCommand(address: string, origin: Origin, time: Time)
    | Undefined(origin: Origin, time: Time)

  /** The packet's `type` property. */
  function TypeOf(p: HciPacket): string {
    match p
    case DecodedRadioSignal(_, _, _, _, _, _) => TYPE_DECODED_RADIO_SIGNAL
    case ReadAddressCommand(_, _, _) => TYPE_READ_BD_ADDR_CMD
    case Undefined(_, _) => TYPE_UNDEFINED
  }

  /**
   * The constructor: the type string selects which content fields are
   * copied; an unknown type gives an `undefined` packet with no content.
   * Origin and time are copied for every type.
   */
  function NewHciPacket(typ: string, content: Content, origin: Origin, time: Time): (p: HciPacket)
    requires typ == TYPE_DECODED_RADIO_SIGNAL ==> content.RadioDecoding?
    requires typ == TYPE_READ_BD_ADDR_CMD ==> content.AddressContent?
    ensures p.origin == origin && p.time == time
    ensures TypeOf(p) == typ || (TypeOf(p) == TYPE_UNDEFINED && typ != TYPE_DECODED_RADIO_SIGNAL && typ != TYPE_READ_BD_ADDR_CMD)
    ensures p.DecodedRadioSignal? ==>
      && p.transmitterId == content.transmitterId && p.transmitterIdType == content.transmitterIdType
      && p.packets == content.packets && p.rssiSignature == content.rssiSignature
    ensures p.ReadAddressCommand? ==> p.address == content.address
  {
    if typ == TYPE_DECODED_RADIO_SIGNAL then
      DecodedRadioSignal(content.transmitterId, content.transmitterIdType, content.packets,
                         content.rssiSignature, origin, time)
    else if typ == TYPE_READ_BD_ADDR_CMD then
      ReadAddressCommand(content.address, origin, time)
    else
      Undefined(origin, time)
  }

  /** The content a packet was built from. */
  function ContentOf(p: HciPacket): Content {
    match p
    case DecodedRadioSignal(id, kind, packets, signature, _, _) => RadioDecoding(id, kind, signature, packets)
    case ReadAddressCommand(address, _, _) => AddressContent(address)
    case Undefined(_, _) => NoContent
  }

  /** The three type strings are distinct, so the type string alone selects the variant. */
  lemma TypeNamesDistinct()
    ensures TYPE_DECODED_RADIO_SIGNAL != TYPE_READ_BD_ADDR_CMD
    ensures TYPE_DECODED_RADIO_SIGNAL != TYPE_UNDEFINED
    ensures TYPE_READ_BD_ADDR_CMD != TYPE_UNDEFINED
  {
    assert TYPE_DECODED_RADIO_SIGNAL[0] != TYPE_READ_BD_ADDR_CMD[0];
    assert TYPE_DECODED_RADIO_SIGNAL[0] != TYPE_UNDEFINED[0];
    assert TYPE_READ_BD_ADDR_CMD[0] != TYPE_UNDEFINED[0];
  }

  /**
   * Every packet is what the constructor builds from its own type, content,
   * origin and time: the constructor loses nothing and invents nothing.
   */
  lemma ConstructorRoundTrip(p: HciPacket)
    ensures var typ := TypeOf(p);
      && (typ == TYPE_DECODED_RADIO_SIGNAL ==> ContentOf(p).RadioDecoding?)
      && (typ == TYPE_READ_BD_ADDR_CMD ==> ContentOf(p).AddressContent?)
      && NewHciPacket(typ, ContentOf(p), p.origin, p.time) == p
  {
    TypeNamesDistinct();
  }

  /** A type string the constructor does not know discards the content entirely. */
  lemma UnknownTypeDiscardsContent(typ: string, c1: Content, c2: Content, origin: Origin, time: Time)
    requires typ != TYPE_DECODED_RADIO_SIGNAL && typ != TYPE_READ_BD_ADDR_CMD
    ensures NewHciPacket(typ, c1, origin, time) == NewHciPacket(typ, c2, origin, time) == Undefined(origin, time)
  {
  }
}
