/** From the reed switch to the hub: nodes, wire, decoder, event mapping and door watch as one system. */
module DoorPipeline {
  import opened MachineInts
  import opened Options
  import opened Debounce
  import opened Ccsds
  import opened DoorNode
  import opened DoorWatchModel

  /** A packet as the hub maps it; sensors other than contacts are outside this system. */
  datatype ContactEvent = ContactEvent(id: uint32, open: bool, time: uint64)

  function PacketToContact(p: SensorPacket, time: uint64): Option<ContactEvent> {
    if p.sensorType == SENSOR_CONTACT then Some(ContactEvent(p.deviceId, p.value != 0, time)) else None
  }

  /** What the hub does with 14 bytes that arrive at `time`. */
  function Receive(w: Watch, bytes: seq<uint8>, time: uint64): (r: Watch)
    requires w.Valid()
    ensures r.Valid()
  {
    var p := Decode(bytes);
    if p.None? then w
    else
      var e := PacketToContact(p.value, time);
      if e.None? then w else Event(w, e.value.id, e.value.open, e.value.time).0
  }

  /** One sample of one node; a packet it gives rise to reaches the hub at `hubTime`. */
  datatype Tick = Tick(node: nat, sample: DoorLevel, hubTime: uint64)

  datatype Heard = Heard(node: nat, time: uint64)

  /** The nodes of a house and its hub; `heard` keeps who spoke last under each 11-bit id, and when that arrived. */
  datatype System = System(nodes: seq<Node>, heard: map<int, Heard>, watch: Watch) {
    predicate Valid() {
      watch.Valid() && forall id | id in heard :: heard[id].node < |nodes| && WireId(nodes[heard[id].node]) == id
    }

    function Level(k: nat): DoorLevel
      requires k < |nodes|
    {
      nodes[k].debouncer.committed
    }
  }

  function WireId(node: Node): uint32 {
    node.deviceId % 0x800
  }

  function Advance(s: System, t: Tick): (r: System)
    requires s.Valid()
    ensures r.Valid()
  {
    if t.node >= |s.nodes| then s
    else
      var (node, packet) := Sample(s.nodes[t.node], t.sample);
      var nodes := s.nodes[t.node := node];
      if packet.None? then System(nodes, s.heard, s.watch)
      else System(nodes, s.heard[WireId(node) := Heard(t.node, t.hubTime)], Receive(s.watch, packet.value, t.hubTime))
  }

  function Run(s: System, ticks: seq<Tick>): (r: System)
    requires s.Valid()
    ensures r.Valid()
  {
    if ticks == [] then s else Advance(Run(s, ticks[..|ticks| - 1]), ticks[|ticks| - 1])
  }

  /** An announcement arrives as the event it announces, for the node's 11-bit id. */
  lemma AnnouncementArrives(w: Watch, deviceId: uint16, zoneId: uint16, sequence: uint16, edge: Edge, time: uint64)
    requires w.Valid()
    ensures Receive(w, Encode(Announcement(deviceId, zoneId, sequence, edge)), time)
            == Event(w, deviceId % 0x800, edge == DoorOpened, time).0
  {
    DecodeOfEncode(Announcement(deviceId, zoneId, sequence, edge));
  }

  /**
   Any bytes the hub decodes, whoever sent them: a contact packet is an event under the id in its first two bytes, an
   opening if any byte of its value is not zero; any other packet is not for the door watch.
   */
  lemma ReceivedBytes(w: Watch, b: seq<uint8>, time: uint64)
    requires w.Valid() && Decode(b).Some?
    ensures |b| == 14 && b[0] < 8
    ensures Receive(w, b, time) ==
            if b[6] != 0x10 then w
            else Event(w, Word(b[0], b[1]), !(b[10] == b[11] == b[12] == b[13] == 0), time).0
  {
    DecodedFields(b);
  }

  /** One tick of a node: it announces its new level under its id, or nothing is sent and nothing moves. */
  lemma TickArrives(s: System, t: Tick)
    requires s.Valid() && t.node < |s.nodes|
    ensures var r, was := Advance(s, t), s.nodes[t.node];
            var (d, edge) := Debounced(DEFAULT_STABLE_TICKS, was.debouncer, t.sample);
            && r.nodes == s.nodes[t.node := r.nodes[t.node]]
            && r.nodes[t.node].deviceId == was.deviceId && r.nodes[t.node].debouncer == d
            && (edge.None? ==> r.heard == s.heard && r.watch == s.watch && d.committed == was.debouncer.committed)
            && (edge.Some? ==>
                  && (edge.value == DoorOpened <==> d.committed == Open)
                  && r.heard == s.heard[WireId(was) := Heard(t.node, t.hubTime)]
                  && r.watch == Event(s.watch, WireId(was), edge.value == DoorOpened, t.hubTime).0)
  {
    var was := s.nodes[t.node];
    var (_, edge) := Debounced(DEFAULT_STABLE_TICKS, was.debouncer, t.sample);
    if edge.Some? {
      AnnouncementArrives(s.watch, was.deviceId, was.zoneId, was.nextSequence, edge.value, t.hubTime);
    }
  }

  /** Contact `i` is the one that the packets under its id reach. */
  predicate Reached(w: Watch, i: nat)
    requires w.Valid()
  {
    i < |w.configs| && FirstMatch(w, w.configs[i].contactId, 0) == i
  }

  /** An event moves the contact its id reaches, if any, and leaves every other state and all that matching looks at. */
  lemma EventMovesOne(w: Watch, id: uint32, open: bool, time: uint64)
    requires w.Valid()
    ensures var r := Event(w, id, open, time).0;
            && r.Valid() && r.configs == w.configs
            && forall i | 0 <= i < |w.states| ::
                 && (Reached(r, i) <==> Reached(w, i))
                 && r.states[i] == if Reached(w, i) && w.configs[i].contactId == id then Moved(w.states[i], open, time)
                                   else w.states[i]
  {
    var r := Event(w, id, open, time).0;
    forall i | 0 <= i < |w.states|
      ensures Reached(r, i) <==> Reached(w, i)
    {
      assert forall j | 0 <= j < |w.states| ::
          Matches(r.configs[j], r.states[j], w.configs[i].contactId)
          <==> Matches(w.configs[j], w.states[j], w.configs[i].contactId);
    }
  }

  /** Contact `i` at the hub, after a run that began with `w`: what its last speaker says now, if anyone spoke. */
  ghost predicate Told(w: Watch, r: System, i: nat)
    requires w.Valid() && r.Valid() && i < |w.states| == |r.watch.states|
  {
    var id, st := w.configs[i].contactId, r.watch.states[i];
    if Reached(w, i) && id in r.heard then
      && st.contactId == w.states[i].contactId && st.active
      && (st.open <==> r.Level(r.heard[id].node) == Open)
      && (st.open ==> st.openedAt == r.heard[id].time)
    else st == w.states[i]
  }

  ghost predicate Followed(s: System, r: System) {
    && s.Valid() && r.Valid() && |r.nodes| == |s.nodes| && r.watch.configs == s.watch.configs
    && (forall k | 0 <= k < |s.nodes| ::
          && r.nodes[k].deviceId == s.nodes[k].deviceId
          && (WireId(s.nodes[k]) !in r.heard ==> r.Level(k) == s.Level(k)))
    && forall i | 0 <= i < |s.watch.states| :: (Reached(r.watch, i) <==> Reached(s.watch, i)) && Told(s.watch, r, i)
  }

  lemma TickFollows(s: System, r: System, t: Tick)
    requires Followed(s, r)
    ensures Followed(s, Advance(r, t))
  {
    if t.node < |r.nodes| {
      var next, id := Advance(r, t), WireId(r.nodes[t.node]);
      TickArrives(r, t);
      var (_, edge) := Debounced(DEFAULT_STABLE_TICKS, r.nodes[t.node].debouncer, t.sample);
      if edge.Some? {
        EventMovesOne(r.watch, id, edge.value == DoorOpened, t.hubTime);
      }
      forall i | 0 <= i < |s.watch.states|
        ensures (Reached(next.watch, i) <==> Reached(s.watch, i)) && Told(s.watch, next, i)
      {
        assert Told(s.watch, r, i);
      }
    }
  }

  /**
   Any nodes, under any ids, sampled in any interleaving: at every moment each contact shows what the last node that
   spoke under its id has as its debounced level now, open since that packet arrived; a contact nobody spoke to is as
   it was, and so is the level of a node under whose id nobody spoke.
   */
  lemma {:induction false} HubFollowsNodes(s: System, ticks: seq<Tick>)
    requires s.Valid() && s.heard == map[]
    ensures Followed(s, Run(s, ticks))
  {
    if ticks != [] {
      HubFollowsNodes(s, ticks[..|ticks| - 1]);
      TickFollows(s, Run(s, ticks[..|ticks| - 1]), ticks[|ticks| - 1]);
    }
  }

  predicate DistinctIds(nodes: seq<Node>) {
    forall j, k | 0 <= j < k < |nodes| :: WireId(nodes[j]) != WireId(nodes[k])
  }

  lemma NodesSpeakForThemselves(s: System, r: System, k: nat)
    requires Followed(s, r) && DistinctIds(s.nodes) && k < |s.nodes| && WireId(s.nodes[k]) in r.heard
    ensures r.heard[WireId(s.nodes[k])].node == k
  {
    var l := r.heard[WireId(s.nodes[k])].node;
    assert WireId(s.nodes[l]) == WireId(r.nodes[l]) == WireId(s.nodes[k]);
  }

  predicate Agrees(s: System, k: nat, i: nat)
    requires k < |s.nodes| && i < |s.watch.states|
  {
    s.watch.states[i].open <==> s.Level(k) == Open
  }

  /**
   Hub and node agree exactly when the last node to speak under that id has the level this node has, or nobody spoke
   and they agreed to begin with.
   */
  lemma HubAgreesIff(s: System, ticks: seq<Tick>, k: nat, i: nat)
    requires s.Valid() && s.heard == map[]
    requires k < |s.nodes| && Reached(s.watch, i) && s.watch.configs[i].contactId == WireId(s.nodes[k])
    ensures var r, id := Run(s, ticks), WireId(s.nodes[k]);
            && k < |r.nodes| && i < |r.watch.states|
            && (Agrees(r, k, i) <==>
                if id in r.heard then r.Level(r.heard[id].node) == r.Level(k) else Agrees(s, k, i))
  {
    HubFollowsNodes(s, ticks);
    assert Told(s.watch, Run(s, ticks), i);
  }

  /**
   Under distinct 11-bit ids every contact shows its own node's level as soon as that node has spoken, whatever the
   other nodes send in between: always, for a door closed at boot.
   */
  lemma HubFollowsNode(s: System, ticks: seq<Tick>, k: nat, i: nat)
    requires s.Valid() && s.heard == map[] && DistinctIds(s.nodes)
    requires k < |s.nodes| && Reached(s.watch, i) && s.watch.configs[i].contactId == WireId(s.nodes[k])
    ensures var r, id := Run(s, ticks), WireId(s.nodes[k]);
            && k < |r.nodes| && i < |r.watch.states|
            && (Agrees(r, k, i) <==> id in r.heard || Agrees(s, k, i))
            && (id in r.heard && r.watch.states[i].open ==> r.watch.states[i].openedAt == r.heard[id].time)
  {
    HubAgreesIff(s, ticks, k, i);
    HubFollowsNodes(s, ticks);
    var r, id := Run(s, ticks), WireId(s.nodes[k]);
    assert Told(s.watch, r, i);
    if id in r.heard {
      NodesSpeakForThemselves(s, r, k);
    }
  }

  lemma QuietSample(node: Node, n: uint16)
    requires node.debouncer == State(Closed, n) && n + 1 < DEFAULT_STABLE_TICKS
    ensures Sample(node, Open) == (node.(debouncer := State(Closed, n + 1)), None)
  {
    assert Announce(node, Open) == (node.(debouncer := State(Closed, n + 1)), None);
  }

  /** The streak of node `k` while it samples an open door for the first time; nothing is sent. */
  lemma {:induction false} OpeningIsQuiet(s: System, k: nat, n: nat, time: uint64)
    requires s.Valid() && k < |s.nodes| && s.nodes[k].debouncer == State(Closed, 0) && n < DEFAULT_STABLE_TICKS
    ensures Run(s, seq(n, _ => Tick(k, Open, time)))
            == s.(nodes := s.nodes[k := s.nodes[k].(debouncer := State(Closed, n))])
  {
    if n > 0 {
      var ticks := seq(n, _ => Tick(k, Open, time));
      OpeningIsQuiet(s, k, n - 1, time);
      assert ticks[..n - 1] == seq(n - 1, _ => Tick(k, Open, time));
      QuietSample(Run(s, ticks[..n - 1]).nodes[k], n - 1);
    }
  }

  /** Without distinct ids the hub can report a closed door as open: ids that differ by 2048 are one id on the wire. */
  lemma AliasedNodeMisleads(s: System, k: nat, l: nat, i: nat, time: uint64)
    requires s.Valid() && k < |s.nodes| && l < |s.nodes| && k != l && Reached(s.watch, i)
    requires s.watch.configs[i].contactId == WireId(s.nodes[k]) == WireId(s.nodes[l])
    requires s.Level(k) == Closed && s.nodes[l].debouncer == State(Closed, 0)
    ensures var r := Run(s, seq(DEFAULT_STABLE_TICKS, _ => Tick(l, Open, time)));
            && k < |r.nodes| && i < |r.watch.states|
            && r.nodes[k] == s.nodes[k] && r.watch.states[i].open && !Agrees(r, k, i)
  {
    var n: nat := DEFAULT_STABLE_TICKS - 1;
    var last := Run(s, seq(n, _ => Tick(l, Open, time)));
    OpeningIsQuiet(s, l, n, time);
    assert seq(DEFAULT_STABLE_TICKS, _ => Tick(l, Open, time))[..n] == seq(n, _ => Tick(l, Open, time));
    TickArrives(last, Tick(l, Open, time));
    EventMovesOne(last.watch, WireId(s.nodes[l]), true, time);
  }

  /** The timeout alert due for contact `i`, from the level and the last packet of the node that speaks for it. */
  function Overdue(w: Watch, r: System, i: nat, now: uint64): seq<DoorAlert>
    requires w.Valid() && r.Valid() && i < |w.configs|
  {
    var cfg := w.configs[i];
    if Reached(w, i) && cfg.contactId in r.heard then
      var last := r.heard[cfg.contactId];
      if r.Level(last.node) == Open && now > last.time + cfg.maxOpenSec
      then [DoorAlert(cfg.contactId, cfg.zoneId, OpenTooLong, now - last.time, now)] else []
    else
      var st := w.states[i];
      if st.active && cfg.enabled && st.open && now > st.openedAt + cfg.maxOpenSec
      then [DoorAlert(cfg.contactId, cfg.zoneId, OpenTooLong, now - st.openedAt, now)] else []
  }

  function AllOverdue(w: Watch, r: System, n: nat, now: uint64): seq<DoorAlert>
    requires w.Valid() && r.Valid() && n <= |w.configs|
  {
    if n == 0 then [] else AllOverdue(w, r, n - 1, now) + Overdue(w, r, n - 1, now)
  }

  lemma TimeoutIsOverdue(s: System, r: System, i: nat, now: uint64)
    requires Followed(s, r) && i < |s.watch.configs|
    ensures ContactTimeout(r.watch.configs[i], r.watch.states[i], now) == Overdue(s.watch, r, i, now)
  {
    assert Told(s.watch, r, i);
    if Reached(s.watch, i) {
      assert Matches(s.watch.configs[i], s.watch.states[i], s.watch.configs[i].contactId);
    }
  }

  lemma {:induction false} TimeoutsAreOverdue(s: System, r: System, n: nat, now: uint64)
    requires Followed(s, r) && n <= |s.watch.configs|
    ensures Timeouts(r.watch, n, now) == AllOverdue(s.watch, r, n, now)
  {
    if n > 0 {
      TimeoutsAreOverdue(s, r, n - 1, now);
      TimeoutIsOverdue(s, r, n - 1, now);
    }
  }

  /**
   After any run of the whole house the hub's timeout scan reports, in registration order and at most four, exactly
   the doors whose node has them open now and announced that more than `max_open_sec` ago, each with its duration.
   */
  lemma TimeoutScanFollowsDoors(s: System, ticks: seq<Tick>, now: uint64)
    requires s.Valid() && s.heard == map[]
    ensures var r, due := Run(s, ticks), AllOverdue(s.watch, Run(s, ticks), |s.watch.configs|, now);
            && r.watch.configs == s.watch.configs
            && FirstFour(Timeouts(r.watch, |r.watch.configs|, now)) == if |due| <= 4 then due else due[..4]
  {
    HubFollowsNodes(s, ticks);
    TimeoutsAreOverdue(s, Run(s, ticks), |s.watch.configs|, now);
  }
}
