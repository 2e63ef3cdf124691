/** The door node: every confirmed edge becomes one packet with the next sequence count. */
module DoorNode {
  import opened MachineInts
  import opened Options
  import opened Debounce
  import opened Ccsds

  const DEFAULT_STABLE_TICKS: uint16 := 50

  datatype Node = Node(deviceId: uint16, zoneId: uint16, nextSequence: uint16, debouncer: State)

  function FreshNode(deviceId: uint16, zoneId: uint16, initial: DoorLevel): Node {
    Node(deviceId, zoneId, 0, State(initial, 0))
  }

  /** The packet that announces an edge. */
  function Announcement(deviceId: uint16, zoneId: uint16, sequence: uint16, edge: Edge): SensorPacket {
    SensorPacket(deviceId, sequence % 0x4000, SENSOR_CONTACT, QUALITY_GOOD, zoneId,
                 if edge == DoorOpened then Open.AsValue() else Closed.AsValue())
  }

  /** The packet a sample gives rise to, before encoding. */
  function Announce(node: Node, sample: DoorLevel): (Node, Option<SensorPacket>) {
    var (debouncer, edge) := Debounced(DEFAULT_STABLE_TICKS, node.debouncer, sample);
    if edge.None? then (node.(debouncer := debouncer), None)
    else
      (node.(debouncer := debouncer, nextSequence := (node.nextSequence + 1) % 0x1_0000 % 0x4000),
       Some(Announcement(node.deviceId, node.zoneId, node.nextSequence, edge.value)))
  }

  function Sample(node: Node, sample: DoorLevel): (Node, Option<seq<uint8>>) {
    var (next, packet) := Announce(node, sample);
    (next, if packet.None? then None else Some(Encode(packet.value)))
  }

  class DoorState {
    const deviceId: uint16
    const zoneId: uint16
    var nextSequence: uint16
    const debouncer: Debouncer

    ghost predicate Valid()
      reads debouncer
    {
      debouncer.stableTicks == DEFAULT_STABLE_TICKS
    }

    function Abs(): Node
      reads this, debouncer
    {
      Node(deviceId, zoneId, nextSequence, debouncer.Abs())
    }

    constructor (deviceId: uint16, zoneId: uint16, initial: DoorLevel)
      ensures Valid() && Abs() == FreshNode(deviceId, zoneId, initial) && fresh(debouncer)
    {
      this.deviceId := deviceId;
      this.zoneId := zoneId;
      nextSequence := 0;
      debouncer := new Debouncer(DEFAULT_STABLE_TICKS, initial);
    }

    method Step(sample: DoorLevel) returns (packet: Option<seq<uint8>>)
      requires Valid()
      modifies this, debouncer
      ensures Valid() && (Abs(), packet) == Sample(old(Abs()), sample)
    {
      var edge := debouncer.Update(sample);
      if edge.None? {
        return None;
      }
      var value := if edge.value == DoorOpened then Open.AsValue() else Closed.AsValue();
      var p := SensorPacket(deviceId, nextSequence % 0x4000, SENSOR_CONTACT, QUALITY_GOOD, zoneId, value);
      nextSequence := (nextSequence + 1) % 0x1_0000 % 0x4000;
      var buf := new uint8[PACKET_SIZE](_ => 0);
      EncodeInto(p, buf);
      return Some(buf[..]);
    }
  }

  /** `packets` are the byte strings handed to the radio, in order. */
  datatype Transmission = Transmission(node: Node, packets: seq<seq<uint8>>)

  function Transmit(node: Node, samples: seq<DoorLevel>): Transmission {
    if samples == [] then Transmission(node, [])
    else
      var before := Transmit(node, samples[..|samples| - 1]);
      var (next, packet) := Sample(before.node, samples[|samples| - 1]);
      Transmission(next, if packet.Some? then before.packets + [packet.value] else before.packets)
  }

  lemma SequenceAdvances(k: nat)
    ensures (k % 0x4000 + 1) % 0x1_0000 % 0x4000 == (k + 1) % 0x4000
  {
  }

  /** One packet per edge: packet `k` encodes edge `k`, under sequence count `k` modulo 2^14. */
  lemma {:induction false} PacketsFollowEdges(deviceId: uint16, zoneId: uint16, initial: DoorLevel, samples: seq<DoorLevel>)
    ensures var tr, fed := Transmit(FreshNode(deviceId, zoneId, initial), samples),
                           Feed(50, initial, samples);
            && tr.node == Node(deviceId, zoneId, |fed.edges| % 0x4000, fed.state)
            && |tr.packets| == |fed.edges|
            && forall k | 0 <= k < |tr.packets| ::
                 tr.packets[k] == Encode(Announcement(deviceId, zoneId, k % 0x4000, fed.edges[k]))
  {
    if samples != [] {
      PacketsFollowEdges(deviceId, zoneId, initial, samples[..|samples| - 1]);
      SequenceAdvances(|Feed(50, initial, samples[..|samples| - 1]).edges|);
    }
  }

  lemma AnnouncementOnWire(deviceId: uint16, zoneId: uint16, sequence: uint16, edge: Edge)
    requires sequence < 0x4000
    ensures Decode(Encode(Announcement(deviceId, zoneId, sequence, edge)))
            == Some(SensorPacket(deviceId % 0x800, sequence, 0x10, 0, zoneId, if edge == DoorOpened then 1 else 0))
  {
    var p := Announcement(deviceId, zoneId, sequence, edge);
    assert sequence % 0x4000 == sequence;
    DecodeOfEncode(p);
  }

  lemma {:induction false} EdgesByParity(initial: DoorLevel, k: nat)
    ensures EdgeAt(initial, k) == DoorOpened <==> (k % 2 == 0) == (initial == Closed)
  {
    if k > 0 {
      EdgesByParity(initial, k - 1);
    }
  }

  /**
   On the wire: the `k`-th 14 bytes a node sends decode to its 11-bit id, the count `k` modulo 2^14, a contact of good
   quality (0x10, 0), its zone, and 1 or 0 in turn, beginning with the level the door was not in at boot.
   */
  lemma WireAlternates(deviceId: uint16, zoneId: uint16, initial: DoorLevel, samples: seq<DoorLevel>, k: nat)
    requires k < |Transmit(FreshNode(deviceId, zoneId, initial), samples).packets|
    ensures Decode(Transmit(FreshNode(deviceId, zoneId, initial), samples).packets[k])
            == Some(SensorPacket(deviceId % 0x800, k % 0x4000, 0x10, 0, zoneId,
                                 if (k % 2 == 0) == (initial == Closed) then 1 else 0))
  {
    var packets := Transmit(FreshNode(deviceId, zoneId, initial), samples).packets;
    assert packets[k] == Encode(Announcement(deviceId, zoneId, k % 0x4000, EdgeAt(initial, k))) by {
      PacketsFollowEdges(deviceId, zoneId, initial, samples);
      EdgesAlternate(50, initial, samples);
    }
    AnnouncementOnWire(deviceId, zoneId, k % 0x4000, EdgeAt(initial, k));
    EdgesByParity(initial, k);
  }
}
