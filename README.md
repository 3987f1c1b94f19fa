# barnowl-hci in Dafny

This project models the core of barnowl-hci, a listener that turns raw
Bluetooth HCI traffic from a local adapter into *raddecs*. A raddec is a
radio decoding: a transmitter identifier, an RSSI signature naming the
receiver that heard it, and the raw packet string. It models four parts:

- **HCI packet** (`hcipacket.dfy`, module `Packet`). This part holds:
  - the HCI constants;
  - the command opcodes, built as `OCF | OGF << 10`;
  - the tagged packet record the decoder hands to the manager. Its
    constructor selects fields by the type string and turns an unknown type
    into an `undefined` packet.
- **Decoder** (`hcidecoder.dfy`, module `Decoder`). `handleHciData` is a
  pure function `Decode` from a byte buffer, an origin and a capture time to
  an optional packet. It covers:
  - an LE Meta event carrying an LE Advertising Report becomes a
    decoded-radio-signal packet;
  - a Command Complete event for Read BD_ADDR becomes a read-address packet;
  - anything else produces nothing;
  - the `HciDecoder` class forwards the result to its manager.

  The text renderings the decoder relies on live in `text.dfy` (module
  `Text`), each paired with the parser or reference definition that gives it
  its meaning:
  - `Number.prototype.toString` (radix 10 and 16);
  - the `('0' + s).substr(-2)` padding;
  - `Buffer.toString('hex')`;
  - the `match(/.{1,2}/g).reverse().join('')` chain.
- **Manager** (`hcimanager.dfy`, module `Manager`). A class updates the
  `radiosByOrigin` registry in place and stamps RSSI entries with a `forEach`
  loop. A pure step function `Handle` on a `State` value specifies each of its
  methods, and the registry's invariants are proved over whole packet
  streams. Its outputs to the barnowl emitter are two logs on the class:
  - `handleRaddec` → `raddecs`;
  - `handleInfrastructureMessage` → `infrastructureMessages`.
- **Socket listener** (`socketlistener.dfy`, module `Listener`). It covers:
  - the command encoders, which fill a zero-filled buffer at fixed offsets
    with `writeUInt8`, `writeUInt16LE`, `writeUInt32LE` and `copy`;
  - the 14-byte socket filter;
  - the order in which `openHciSocket` configures a socket;
  - the origin a listener stamps on its data.

  The native socket is a class that records what is bound, filtered, started
  and written.

Command and event framing follow the Bluetooth Core Specification, Volume 4
Part E:
- command packets: section 5.4.1;
- Set Event Mask: section 7.3.1;
- Read BD_ADDR: section 7.4.6;
- Command Complete: section 7.7.14;
- LE Meta / LE Advertising Report: section 7.7.65.2;
- LE Set Event Mask: section 7.8.1;
- LE Set Scan Parameters and LE Set Scan Enable: sections 7.8.10 and 7.8.11.

### What the code does not do

The model follows the code, including what it leaves unchecked. The code
does not:
- check the declared parameter length (byte 2) against the buffer length;
- check the status byte of a Read BD_ADDR completion. A failed read still
  yields an address (`Decoder.DecodesReadBdAddrComplete` holds for every
  status);
- loop over several reports in one LE Advertising Report event. It reads
  the first report at fixed offsets 5..13, takes the payload length as
  `data.length - 9`, and ignores the report count
  (`Decoder.ReportCountIgnored`);
- recognise a Reset completion or re-run the opening sequence after one;
- issue a Reset or the event-mask commands when opening;
- run a periodic scan-enable "kick";
- clamp the scan interval and window (they are the constant 0x0010).

The packet string starts with the number `4 * addressType`, to which the
mapped advertising-type string is appended. JavaScript turns the sum of a
number and a string into the number's decimal rendering followed by that
string. The prefix is therefore `00` for a public ADV_IND, `40` for a random
one, and `06` for a public ADV_SCAN_IND. An advertising type above 4
indexes past the five-entry map, the sum with `undefined` is `NaN`, and the
prefix is then the text `NaN` (`Decoder.PduPrefix`).

## Model

| member | source | states |
|---|---|---|
| Text.ToDecimalRoundTrip | lib/hcidecoder.js:84-85 | the decimal rendering of `4 * addressType` is non-empty digits without a leading zero and reads back as the number |
| Text.PadHex2IsLowByte | lib/hcidecoder.js:86 | the `('0' + n.toString(16)).substr(-2)` idiom yields the low octet of any non-negative n as two lower-case hex digits |
| Text.PadHex2OfByte | lib/hcidecoder.js:106-111 | on an octet the padding idiom equals the octet's two-digit hex rendering |
| Text.HexStringRoundTrip | lib/hcidecoder.js:87-88 | `toString('hex')` yields two characters per octet and parses back into exactly the octets |
| Text.MatchPairsOfHex | lib/hcidecoder.js:50 | `match(/.{1,2}/g)` on a hex rendering splits it into the per-octet renderings, in order |
| Text.ReversedPairsAreReversedHex | lib/hcidecoder.js:50-51 | splitting into pairs, reversing and joining renders the octets in reverse order |
| Packet.OpcodeFields | lib/hcipacket.js:27-32 | packing OGF above a 10-bit OCF loses nothing: both fields unpack again, and the opcode fits 16 bits |
| Packet.OpcodeConstants | lib/hcipacket.js:19-32 | the five opcodes are 0x1009, 0x200b, 0x200c, 0x0c01, 0x2001; the two event-mask opcodes differ although their OCFs are equal |
| Packet.TypeNamesDistinct | lib/hcipacket.js:37-39 | the three type strings are pairwise distinct |
| Packet.NewHciPacket | lib/hcipacket.js:56-81 | origin and time are always copied; the known type strings select their variant and copy its content fields; any other string gives an `undefined` packet |
| Packet.ConstructorRoundTrip | lib/hcipacket.js:56-81 | every packet is rebuilt exactly from its own type, content, origin and time |
| Packet.UnknownTypeDiscardsContent | lib/hcipacket.js:74-80 | with an unknown type string the content is irrelevant: the result is `undefined` with origin and time |
| Decoder.ReadInt8 | lib/hcidecoder.js:82 | `readInt8` gives a value in -128..127 that is the octet modulo 256 (two's complement) |
| Decoder.Slice | lib/hcidecoder.js:74-81 | `slice` is the sub-buffer when the bounds fit and is empty when the start is at or past the end |
| Decoder.ReadUInt16LE | lib/hcidecoder.js:45 | `readUInt16LE` gives a value below 2^16 whose low octet is the first byte read and whose high octet is the second |
| Decoder.ConvertRawAddress | lib/hcidecoder.js:105-113 | the identifier is the six octets in reverse order as 12 lower-case hex digits, and parses back into them |
| Decoder.RawAddressIsReversedHex | lib/hcidecoder.js:105-113 | the six padded renderings, highest octet first, equal the hex rendering of the reversed address |
| Decoder.HexStringIsHex | lib/hcidecoder.js:87-88 | a hex rendering contains only lower-case hex digits |
| Decoder.PduPrefix | lib/hcidecoder.js:84-85 | for a mapped advertising type the prefix is the decimal rendering of `4 * addressType` (no leading zero, so `0` only for address type 0) followed by the mapped digit; for a type above 4 it is `NaN` |
| Decoder.DecodeLeAdvertisingReport | lib/hcidecoder.js:69-98 | a radio-signal packet whose transmitter is the reversed address at 7..13, public iff the address type is 0, with one RSSI entry (the last octet, signed) and one packet string: prefix, length `data.length - 9` as two hex digits, address in wire order, payload 14..end-1 |
| Decoder.ReadAddressOf | lib/hcidecoder.js:45-51 | the returned parameters from offset 7, rendered in reverse octet order; the rendering parses back into them |
| Decoder.Decode | lib/hcidecoder.js:36-58 | a non-event buffer gives nothing; a radio-signal packet iff LE Meta with sub-event 2; a read-address packet iff Command Complete for opcode 0x1009, with the reversed address; origin and time are copied; never an `undefined` packet |
| Decoder.DecodesAdvertisingReport | lib/hcidecoder.js:36-42 | any single-report LE Advertising Report event decodes to the transmitter, kind, packet string and RSSI it encodes |
| Decoder.DecodesReadBdAddrComplete | lib/hcidecoder.js:44-56 | a Read BD_ADDR completion with any status decodes to its returned octets, reversed and rendered |
| Decoder.OtherCommandCompleteIgnored | lib/hcidecoder.js:44-48 | a completion for any other opcode produces nothing |
| Decoder.ReportCountIgnored | lib/hcidecoder.js:38-42 | for LE Meta events the decoded result does not depend on byte 4 (the report count) |
| Decoder.TestAddressVector | lib/testlistener.js:60-62 | the test listener's address buffer decodes to address 000000000000 |
| Decoder.TestRadioVector | lib/testlistener.js:45-50 | the test listener's radio buffer decodes to transmitter 112233445566, public, RSSI -70, packet string `061b665544332211` + payload hex |
| Decoder.AddressThenRadio | lib/hcimanager.js:50-78 | address buffer then radio buffer on one origin: the receiver is recorded, one infrastructure message and one raddec attributed to 000000000000 are emitted |
| Decoder.RadioBeforeAddress | lib/hcimanager.js:50-53 | a radio buffer arriving before its origin's address buffer yields no raddec |
| Decoder.HciDecoder.constructor | lib/hcidecoder.js:23-28 | the decoder keeps the manager it was given |
| Decoder.HciDecoder.HandleHciData | lib/hcidecoder.js:36-58 | the manager's new state is the old state after handling the decoded packet, or unchanged if nothing is decoded |
| Decoder.Feed | lib/hcidecoder.js:36-58 | a buffer that is neither an LE Advertising Report nor a Read BD_ADDR completion leaves the manager unchanged; a completion sets its origin's receiver to the reversed address as EUI-48, emits one infrastructure message and no raddec; a report keeps the registry and, exactly when the origin is registered, appends the one raddec built from the decoded report stamped with that origin's receiver |
| Manager.ReadAddressUpdatesOnlyItsOrigin | lib/hcimanager.js:71-78 | an address packet sets its origin's entry to its address as EUI-48, keeps every other origin's entry and presence, emits itself as one infrastructure message and no raddec |
| Manager.Handle | lib/hcimanager.js:32-78 | one packet adds its origin to the registry keys only if it is an address packet, emits it as an infrastructure message exactly then, and appends one raddec exactly for a radio signal from a registered origin, keeping all earlier outputs |
| Manager.ReadAddressIdempotent | lib/hcimanager.js:71-78 | handling an address packet twice leaves the registry as once; the infrastructure message is emitted twice |
| Manager.LastAddressWins | lib/hcimanager.js:72-75 | of two address packets for one origin the registry keeps the later |
| Manager.UnknownOriginDropped | lib/hcimanager.js:50-53 | a radio signal from an origin not in the registry changes nothing and emits nothing |
| Manager.KnownOriginEmitsOneRaddec | lib/hcimanager.js:53-62 | a radio signal from a known origin appends exactly one raddec copying transmitter, packets, origin and time, with every RSSI entry keeping its value and carrying the origin's receiver id and kind; registry and infrastructure messages unchanged |
| Manager.RadioSignalKeepsRegistry | lib/hcimanager.js:50-63 | radio-signal handling never changes the registry or the infrastructure messages |
| Manager.UndefinedIgnored | lib/hcimanager.js:32-41 | a packet of any other type has no effect |
| Manager.AttributedAfterAddress | lib/hcimanager.js:50-78 | after an address packet, the next radio signal on that origin yields one raddec naming that address on every entry |
| Manager.HandleAllOutputs | lib/hcimanager.js:32-78 | over a stream, the infrastructure messages are exactly its address packets in order, registry keys grow by exactly the origins they name, and at most one raddec is emitted per other packet |
| Manager.AttributedStep | lib/hcimanager.js:50-78 | one packet keeps the invariant: registry entries are EUI-48, and every raddec came from a registered origin and names a public receiver on every entry |
| Manager.HandleAllAttributed | lib/hcimanager.js:32-78 | every stream of packets keeps that invariant |
| Manager.HciManager.constructor | lib/hcimanager.js:23-26 | a new manager has an empty registry and has emitted nothing |
| Manager.HciManager.HandleHciPacket | lib/hcimanager.js:32-41 | the new registry and outputs are `Handle` of the old ones |
| Manager.HciManager.HandleDecodedRadioSignal | lib/hcimanager.js:50-63 | as `Handle` for a radio-signal packet |
| Manager.HciManager.HandleReadAddressCommand | lib/hcimanager.js:71-78 | as `Handle` for an address packet |
| Manager.StampEntries | lib/hcimanager.js:55-58 | every entry of the array is stamped in place with the receiver id and kind, nothing else changes |
| Listener.LittleEndianRoundTrip | lib/socketlistener.js:150-153 | the 16- and 32-bit little-endian fields read back as the values written |
| Listener.WriteUInt8 | lib/socketlistener.js:103 | the buffer changes at the offset only, to the value |
| Listener.WriteUInt16LE | lib/socketlistener.js:104 | the buffer changes at the two octets from the offset only, to the little-endian value |
| Listener.WriteUInt32LE | lib/socketlistener.js:150-152 | the buffer changes at the four octets from the offset only, to the little-endian value |
| Listener.Copy | lib/socketlistener.js:109 | the source octets are laid over the target from the start offset, the rest kept |
| Listener.Alloc | lib/socketlistener.js:97 | `Buffer.alloc(n)` is a fresh buffer of n zero octets |
| Listener.CommandRoundTrip | lib/socketlistener.js:102-109 | every command image starts 0x01, holds the opcode little-endian in bytes 1-2 and its length minus 4 in byte 3, and parses back into exactly its opcode and parameters |
| Listener.ScanEnableBytes | lib/socketlistener.js:188-203 | LE Set Scan Enable is exactly `01 0c 20 02 e d` with e, d the flags as 0/1 |
| Listener.ScanParametersBytes | lib/socketlistener.js:163-181 | LE Set Scan Parameters is exactly `01 0b 20 07 01 10 00 10 00 00 00` |
| Listener.ReadBdAddrBytes | lib/socketlistener.js:210-221 | Read BD_ADDR is exactly `01 09 10 00` |
| Listener.EventMaskBytes | lib/socketlistener.js:96-112 | Set Event Mask is the header `01 01 0c 08` followed by the eight mask octets unchanged |
| Listener.LeEventMaskBytes | lib/socketlistener.js:119-135 | LE Set Event Mask is the header `01 01 20 08` followed by the eight mask octets unchanged |
| Listener.MaskHex | lib/socketlistener.js:100-123 | the mask octets render as the two hex strings in the source, which parse back into them |
| Listener.MasksEnableDecodedEvents | lib/socketlistener.js:96-135 | the masks enable the LE Meta event (bit 61) and the LE Advertising Report sub-event (bit 1) |
| Listener.FilterBytes | lib/socketlistener.js:142-155 | the filter is exactly LE32 0x10, LE32 0xc000, LE32 0x40000000, LE16 0 |
| Listener.FilterPassesExactly | lib/socketlistener.js:142-155 | read as an HCI socket filter, it passes event packets and no other type, and exactly events 0x0e, 0x0f and 0x3e |
| Listener.SetScanEnable | lib/socketlistener.js:188-203 | writes exactly the scan-enable image to the socket, changing nothing else |
| Listener.SetScanParameters | lib/socketlistener.js:163-181 | writes exactly the scan-parameters image, changing nothing else |
| Listener.ReadBdAddr | lib/socketlistener.js:210-221 | writes exactly the Read BD_ADDR image, changing nothing else |
| Listener.SetEventMask | lib/socketlistener.js:96-112 | writes exactly the Set Event Mask image, changing nothing else |
| Listener.SetLeEventMask | lib/socketlistener.js:119-135 | writes exactly the LE Set Event Mask image, changing nothing else |
| Listener.SetFilter | lib/socketlistener.js:142-156 | sets exactly the filter image on the socket, writing nothing |
| Listener.OpenSequenceOpcodes | lib/socketlistener.js:83-88 | the opening writes are, in order, scan enable (off, duplicates filtered), scan parameters, scan enable (on, duplicates filtered), Read BD_ADDR; no event-mask command is among them |
| Listener.DeviceOf | lib/socketlistener.js:73-78 | the socket is bound to the given path exactly when one is given and non-empty, otherwise to the default device |
| Listener.OpenHciSocket | lib/socketlistener.js:70-89 | a fresh socket bound to the path (the default device when there is none or it is empty), filtered, started, with exactly the opening writes |
| Listener.OriginOf | lib/socketlistener.js:29-32 | the origin is the path when one is given and non-empty, otherwise "socket"; it is never empty |
| Listener.OriginDistinguishesPaths | lib/socketlistener.js:29-32 | the origin is the path when one is given, otherwise "socket"; origins are non-empty and distinct paths give distinct origins |
| Listener.SocketListener.constructor | lib/socketlistener.js:23-45 | the listener keeps its decoder and path, takes its origin from the path, and opens its socket as above |
| Listener.SocketListener.HandleData | lib/socketlistener.js:54-58 | each buffer from the socket reaches the manager through the decoder with the listener's origin |

## Left out

- The native `@stoprocent/bluetooth-hci-socket` binding. The `HciSocket` class only records the bound device, the filter, the start and the written buffers. No bytes reach a device, and its `data` events are the `SocketListener.HandleData` calls.
- The socket's `error` handler and the `console.log` error reports: they are console output only. The error branch of the `openHciSocket` callback cannot occur, because the callback is always called without an error. The callback itself, which stores the socket and attaches the handlers, writes nothing; the model leaves it out.
- `new Date().getTime()`: the capture time is a parameter of `HandleData`.
- The `raddec` and `advlib-identifier` libraries. A raddec is reduced to the fields it takes from the packet, and identifier kinds to `EUI48`/`RND48`.
- The barnowl event emitter: `handleRaddec` and `handleInfrastructureMessage` append to two logs.
- `queuesByOrigin` in the decoder is never used after construction.
- lib/testlistener.js: its timers and random RSSI walk are left out. Only its two simulated buffers appear, as test vectors. lib/barnowl.js is not part of this model.
- Decoder.Decode: requires `ReadsInBounds`, i.e. that every read lands inside the buffer. For a shorter buffer Node throws a RangeError (`readUInt8`/`readUInt16LE`), or a TypeError when the address slice is empty and `match` returns null. Exceptions are not modelled.
- Packet.NewHciPacket: requires that the content has the fields its type string selects. JavaScript would copy `undefined` for missing fields; such packets are not modelled.
- Manager.HciManager.HandleDecodedRadioSignal: the source mutates the RSSI entries of the packet it was given, so the caller's packet object changes as well. The model stamps a copy in an array and leaves the packet value unchanged; that aliasing is not captured.
- Listener.WriteUInt8: requires the value to fit its field (Node throws otherwise). The same holds for the 16- and 32-bit writes; every call in the source passes a fitting constant.
- Listener.Copy: requires the source to fit the target from the start offset. Node would copy only the prefix that fits; both masks fit their buffers.
- Manager.Handle: the registry is a JavaScript plain object, read with `hasOwnProperty` and written by key. An origin `"__proto__"` sets the object's prototype instead of adding an entry, so radio signals from it are always dropped. An origin `"hasOwnProperty"` shadows the method, so every later radio signal throws. The model's map treats every origin string as an ordinary key; origins are device paths or "socket".
