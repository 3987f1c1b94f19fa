/**
 * The per-origin receiver registry and packet dispatcher
 * (lib/hcimanager.js). An address packet records the receiver for its
 * origin and is passed on as an infrastructure message; a radio-signal
 * packet is passed on as a raddec only once its origin's receiver is known,
 * with that receiver stamped on every RSSI entry.
 *
 * `Handle` states one step on values; the `HciManager` class does the same
 * by updating its map in place, and its two output logs stand for the
 * `handleRaddec` and `handleInfrastructureMessage` calls on the emitter.
 */
module Manager {
  import opened Wrappers
  import opened Packet

  /** The receiver identity recorded for one origin. */
  datatype Radio = Radio(receiverId: string, receiverIdType: IdType)

  /** A raddec, as the raddec library builds it from a stamped radio-signal packet. */
  datatype Raddec = Raddec(transmitterId: string, transmitterIdType: IdType,
                           rssiSignature: seq<RssiEntry>, packets: seq<string>,
                           origin: Origin, time: Time)

  /** An RSSI entry once the receiver has been stamped onto it. */
  function Stamp(entry: RssiEntry, radio: Radio): RssiEntry {
    entry.(receiverId := Some(radio.receiverId), receiverIdType := Some(radio.receiverIdType))
  }

  /** Every entry of a signature, stamped. */
  function Stamped(signature: seq<RssiEntry>, radio: Radio): seq<RssiEntry> {
    seq(|signature|, i requires 0 <= i < |signature| => Stamp(signature[i], radio))
  }

  /** The raddec emitted for a radio-signal packet heard by `radio`. */
  function RaddecOf(p: HciPacket, radio: Radio): Raddec
    requires p.DecodedRadioSignal?
  {
    Raddec(p.transmitterId, p.transmitterIdType, Stamped(p.rssiSignature, radio), p.packets, p.origin, p.time)
  }

  /** The registry together with everything emitted so far. */
  datatype State = State(radiosByOrigin: map<Origin, Radio>, raddecs: seq<Raddec>,
                         infrastructureMessages: seq<HciPacket>)

  const INITIAL: State := State(map[], [], [])

  /** `handleHciPacket`, on values. */
  function Handle(s: State, p: HciPacket): (t: State)
    ensures t.radiosByOrigin.Keys == s.radiosByOrigin.Keys + (if p.ReadAddressCommand? then {p.origin} else {})
    ensures t.infrastructureMessages == s.infrastructureMessages + (if p.ReadAddressCommand? then [p] else [])
    ensures |t.raddecs| == |s.raddecs| + (if p.DecodedRadioSignal? && p.origin in s.radiosByOrigin then 1 else 0)
    ensures t.raddecs[..|s.raddecs|] == s.raddecs
  {
    match p
    case DecodedRadioSignal(_, _, _, _, origin, _) =>
      if origin in s.radiosByOrigin then s.(raddecs := s.raddecs + [RaddecOf(p, s.radiosByOrigin[origin])])
      else s
    case ReadAddressCommand(address, origin, _) =>
      s.(radiosByOrigin := s.radiosByOrigin[origin := Radio(address, EUI48)],
         infrastructureMessages := s.infrastructureMessages + [p])
    case Undefined(_, _) => s
  }

  /** A stream of packets handled in order. */
  function HandleAll(s: State, ps: seq<HciPacket>): State
    decreases |ps|
  {
    if ps == [] then s else HandleAll(Handle(s, ps[0]), ps[1..])
  }

  /**
   * An address packet sets its origin's entry to its address as a public
   * (EUI-48) receiver, leaves every other origin's entry as it was, emits
   * itself as one infrastructure message and no raddec.
   */
  lemma ReadAddressUpdatesOnlyItsOrigin(s: State, p: HciPacket)
    requires p.ReadAddressCommand?
    ensures var t := Handle(s, p);
      && p.origin in t.radiosByOrigin
      && t.radiosByOrigin[p.origin] == Radio(p.address, EUI48)
      && (forall o :: o != p.origin ==> (o in t.radiosByOrigin <==> o in s.radiosByOrigin))
      && (forall o :: o != p.origin && o in s.radiosByOrigin ==> t.radiosByOrigin[o] == s.radiosByOrigin[o])
      && t.infrastructureMessages == s.infrastructureMessages + [p]
      && t.raddecs == s.raddecs
  {
  }

  /**
   * Handling the same address packet twice leaves the registry as handling
   * it once; only the infrastructure message is emitted a second time.
   */
  lemma ReadAddressIdempotent(s: State, p: HciPacket)
    requires p.ReadAddressCommand?
    ensures Handle(Handle(s, p), p).radiosByOrigin == Handle(s, p).radiosByOrigin
    ensures Handle(Handle(s, p), p).infrastructureMessages == s.infrastructureMessages + [p, p]
    ensures Handle(Handle(s, p), p).raddecs == s.raddecs
  {
  }

  /** Of two address packets for one origin, the later one wins. */
  lemma LastAddressWins(s: State, p: HciPacket, q: HciPacket)
    requires p.ReadAddressCommand? && q.ReadAddressCommand? && p.origin == q.origin
    ensures Handle(Handle(s, p), q).radiosByOrigin == Handle(s, q).radiosByOrigin
  {
  }

  /** A radio signal from an origin with no recorded receiver changes nothing and emits nothing. */
  lemma UnknownOriginDropped(s: State, p: HciPacket)
    requires p.DecodedRadioSignal? && p.origin !in s.radiosByOrigin
    ensures Handle(s, p) == s
  {
  }

  /**
   * A radio signal from a known origin emits exactly one raddec, which
   * copies the transmitter, packets, origin and time and carries the
   * origin's receiver on every RSSI entry; the registry and the
   * infrastructure messages are untouched.
   */
  lemma KnownOriginEmitsOneRaddec(s: State, p: HciPacket)
    requires p.DecodedRadioSignal? && p.origin in s.radiosByOrigin
    ensures var t := Handle(s, p);
      && |t.raddecs| == |s.raddecs| + 1
      && t.raddecs[..|s.raddecs|] == s.raddecs
      && t.radiosByOrigin == s.radiosByOrigin
      && t.infrastructureMessages == s.infrastructureMessages
      && var r := t.raddecs[|s.raddecs|];
         && r.transmitterId == p.transmitterId && r.transmitterIdType == p.transmitterIdType
         && r.packets == p.packets && r.origin == p.origin && r.time == p.time
         && |r.rssiSignature| == |p.rssiSignature|
         && forall i :: 0 <= i < |r.rssiSignature| ==>
              && r.rssiSignature[i].rssi == p.rssiSignature[i].rssi
              && r.rssiSignature[i].receiverId == Some(s.radiosByOrigin[p.origin].receiverId)
              && r.rssiSignature[i].receiverIdType == Some(s.radiosByOrigin[p.origin].receiverIdType)
  {
  }

  /** Radio-signal handling never changes the registry. */
  lemma RadioSignalKeepsRegistry(s: State, p: HciPacket)
    requires p.DecodedRadioSignal?
    ensures Handle(s, p).radiosByOrigin == s.radiosByOrigin
    ensures Handle(s, p).infrastructureMessages == s.infrastructureMessages
  {
  }

  /** A packet of undefined type has no effect. */
  lemma UndefinedIgnored(s: State, p: HciPacket)
    requires p.Undefined?
    ensures Handle(s, p) == s
  {
  }

  /**
   * Once an origin's address is known, its next radio signal is attributed
   * to that address: every RSSI entry of the raddec names it as the receiver.
   */
  lemma AttributedAfterAddress(s: State, a: HciPacket, p: HciPacket)
    requires a.ReadAddressCommand? && p.DecodedRadioSignal? && a.origin == p.origin
    ensures var t := Handle(Handle(s, a), p);
      && t.raddecs == s.raddecs + [RaddecOf(p, Radio(a.address, EUI48))]
      && forall i :: 0 <= i < |p.rssiSignature| ==>
           t.raddecs[|s.raddecs|].rssiSignature[i].receiverId == Some(a.address)
  {
  }

  /** The address packets of a stream, in order. */
  function AddressPackets(ps: seq<HciPacket>): seq<HciPacket> {
    if ps == [] then []
    else (if ps[0].ReadAddressCommand? then [ps[0]] else []) + AddressPackets(ps[1..])
  }

  /** The origins that address packets in a stream name. */
  function AddressedOrigins(ps: seq<HciPacket>): set<Origin> {
    set i | 0 <= i < |ps| && ps[i].ReadAddressCommand? :: ps[i].origin
  }

  /**
   * Over a whole stream, the infrastructure messages are exactly the
   * address packets in arrival order, and the registry gains exactly the
   * origins those packets name: entries are never removed.
   */
  lemma {:induction false} HandleAllOutputs(s: State, ps: seq<HciPacket>)
    ensures HandleAll(s, ps).infrastructureMessages == s.infrastructureMessages + AddressPackets(ps)
    ensures HandleAll(s, ps).radiosByOrigin.Keys == s.radiosByOrigin.Keys + AddressedOrigins(ps)
    ensures |HandleAll(s, ps).raddecs| <= |s.raddecs| + |ps| - |AddressPackets(ps)|
    decreases |ps|
  {
    if ps != [] {
      var t := Handle(s, ps[0]);
      HandleAllOutputs(t, ps[1..]);
      AddressedOriginsCons(ps);
    }
  }

  lemma AddressedOriginsCons(ps: seq<HciPacket>)
    requires ps != []
    ensures AddressedOrigins(ps) == (if ps[0].ReadAddressCommand? then {ps[0].origin} else {}) + AddressedOrigins(ps[1..])
  {
    forall o | o in AddressedOrigins(ps) ensures o in (if ps[0].ReadAddressCommand? then {ps[0].origin} else {}) + AddressedOrigins(ps[1..]) {
      var i :| 0 <= i < |ps| && ps[i].ReadAddressCommand? && ps[i].origin == o;
      if i > 0 { assert ps[1..][i - 1] == ps[i]; }
    }
    forall o | o in AddressedOrigins(ps[1..]) ensures o in AddressedOrigins(ps) {
      var i :| 0 <= i < |ps[1..]| && ps[1..][i].ReadAddressCommand? && ps[1..][i].origin == o;
      assert ps[i + 1] == ps[1..][i];
    }
  }

  /**
   * What the manager keeps true: every recorded receiver is a public
   * (EUI-48) address, and every raddec emitted so far came from an origin
   * with a recorded receiver and names a public receiver on every entry.
   */
  ghost predicate Attributed(s: State) {
    && (forall o :: o in s.radiosByOrigin ==> s.radiosByOrigin[o].receiverIdType == EUI48)
    && (forall i :: 0 <= i < |s.raddecs| ==> s.raddecs[i].origin in s.radiosByOrigin)
    && (forall i, j :: 0 <= i < |s.raddecs| && 0 <= j < |s.raddecs[i].rssiSignature| ==>
          s.raddecs[i].rssiSignature[j].receiverId.Some?
          && s.raddecs[i].rssiSignature[j].receiverIdType == Some(EUI48))
  }

  lemma AttributedStep(s: State, p: HciPacket)
    requires Attributed(s)
    ensures Attributed(Handle(s, p))
  {
    var t := Handle(s, p);
    if p.DecodedRadioSignal? && p.origin in s.radiosByOrigin {
      var r := RaddecOf(p, s.radiosByOrigin[p.origin]);
      assert t.raddecs == s.raddecs + [r];
      forall i, j | 0 <= i < |t.raddecs| && 0 <= j < |t.raddecs[i].rssiSignature|
        ensures t.raddecs[i].rssiSignature[j].receiverId.Some?
        ensures t.raddecs[i].rssiSignature[j].receiverIdType == Some(EUI48)
      {
        if i < |s.raddecs| { assert t.raddecs[i] == s.raddecs[i]; }
      }
    }
  }

  /** Every stream keeps the manager's invariant, starting from the empty manager. */
  lemma {:induction false} HandleAllAttributed(s: State, ps: seq<HciPacket>)
    requires Attributed(s)
    ensures Attributed(HandleAll(s, ps))
    decreases |ps|
  {
    if ps != [] {
      AttributedStep(s, ps[0]);
      HandleAllAttributed(Handle(s, ps[0]), ps[1..]);
    }
  }

  /** The manager of lib/hcimanager.js: a registry updated in place and two output logs. */
  class HciManager {
    var radiosByOrigin: map<Origin, Radio>
    ghost var raddecs: seq<Raddec>
    ghost var infrastructureMessages: seq<HciPacket>

    ghost function Snapshot(): State
      reads this
    {
      State(radiosByOrigin, raddecs, infrastructureMessages)
    }

    constructor ()
      ensures Snapshot() == INITIAL
    {
      radiosByOrigin := map[];
      raddecs := [];
      infrastructureMessages := [];
    }

    /** Dispatch on the packet type; a packet of undefined type is ignored. */
    method HandleHciPacket(packet: HciPacket)
      modifies this
      ensures Snapshot() == Handle(old(Snapshot()), packet)
    {
      match packet {
        case DecodedRadioSignal(_, _, _, _, _, _) => HandleDecodedRadioSignal(packet);
        case ReadAddressCommand(_, _, _) => HandleReadAddressCommand(packet);
        case Undefined(_, _) =>
      }
    }

    /** `handleDecodedRadioSignal`: stamp the receiver onto each entry and emit a raddec. */
    method HandleDecodedRadioSignal(packet: HciPacket)
      requires packet.DecodedRadioSignal?
      modifies this
      ensures Snapshot() == Handle(old(Snapshot()), packet)
    {
      if packet.origin in radiosByOrigin {
        var radio := radiosByOrigin[packet.origin];
        var signature := packet.rssiSignature;
        var entries := new RssiEntry[|signature|](i requires 0 <= i < |signature| => signature[i]);
        assert entries[..] == signature;
        StampEntries(entries, radio);
        raddecs := raddecs + [Raddec(packet.transmitterId, packet.transmitterIdType, entries[..],
                                     packet.packets, packet.origin, packet.time)];
      }
    }

    /** `handleReadAddressCommand`: record the origin's receiver and emit the packet. */
    method HandleReadAddressCommand(packet: HciPacket)
      requires packet.ReadAddressCommand?
      modifies this
      ensures Snapshot() == Handle(old(Snapshot()), packet)
    {
      radiosByOrigin := radiosByOrigin[packet.origin := Radio(packet.address, EUI48)];
      infrastructureMessages := infrastructureMessages + [packet];
    }
  }

  /** The `forEach` that stamps the receiver onto each RSSI entry in place. */
  method StampEntries(entries: array<RssiEntry>, radio: Radio)
    modifies entries
    ensures entries[..] == Stamped(old(entries[..]), radio)
  {
    var i := 0;
    while i < entries.Length
      invariant 0 <= i <= entries.Length
      invariant forall k :: 0 <= k < i ==> entries[k] == Stamp(old(entries[k]), radio)
      invariant forall k :: i <= k < entries.Length ==> entries[k] == old(entries[k])
    {
      entries[i] := Stamp(entries[i], radio);
      i := i + 1;
    }
  }
}
