/** queue_and_send_trap with everything it touches: the inform queue, the trap object and the pool. What the
    queue's log records are real sends, under the id that stands in their octets. */
module TrapQueue {
  import opened Bytes
  import opened Ber
  import opened Containers
  import opened Pool
  import opened Inform
  import opened Trap

  /** The queue's items after a replacing send has dropped those of the trap. */
  function Remaining(items: seq<Item>, replace: bool, trap: nat): seq<Item> {
    if replace then Without(items, OfTrap(trap)) else items
  }

  /** The room for one more inform. */
  method HasRoom(queue: InformQueue, replace: bool, trap: nat) returns (room: bool)
    requires queue.Valid()
    ensures room == (|Remaining(queue.Abs().items, replace, trap)| < INFLIGHT)
  {
    hide Without;
    if !replace { return queue.count < INFLIGHT; }
    ghost var items := queue.Abs().items;
    var n := 0;
    WithoutNone(OfTrap(trap));
    var i := 0;
    while i < queue.count
      invariant 0 <= i <= queue.count && n == |Without(items[..i], OfTrap(trap))|
    {
      WithoutNext(items, i, OfTrap(trap));
      if queue.list[i].value.trap != trap { n := n + 1; }
      i := i + 1;
    }
    assert items[..i] == items;
    return n < INFLIGHT;
  }

  /** The id in a version 2c packet: the first field of its PDU. */
  function IdField(tree: Value): Option<Value> {
    if tree.Complex? && |tree.kids| == 3 && tree.kids[2].Complex? && tree.kids[2].kids != [] then
      Some(tree.kids[2].kids[0])
    else None
  }

  /** Whatever else an incomplete trap has lost, a tree that is built carries the id it was built with. */
  lemma CarriesId(t: TrapData, requestID: int, f: nat)
    requires t.version != 0 && Build(t, requestID, f).tree.Some?
    ensures IdField(Build(t, requestID, f).tree.value) == Some(Simple(PInt(INTEGER, requestID)))
  {
    hide Build, Header, BuildList, Leaves, Simples, Front;
    if t.oid.None? {
      NoNameNoTree(t, requestID, f);
    } else {
      BuildParts(t, requestID, f);
      HeaderSlots(t, requestID, f - 4);
      var fields := Header(t, requestID, f - 4);
      NoListWithoutSlot(t);
      assert fields == WholeHeader(t, requestID);
      FirstField(t, requestID);
      var list := BuildList(t, f - 4 - NodesAll(fields));
      FrontLength(t);
      var tree := Build(t, requestID, f).tree.value;
      assert tree.kids[2] == Complex(PduTag(t), fields + [list.value]);
      assert (fields + [list.value])[0] == fields[0];
    }
  }

  lemma NoNameNoTree(t: TrapData, requestID: int, f: nat)
    requires t.oid.None?
    ensures Build(t, requestID, f).tree.None?
  {}

  lemma NoListWithoutSlot(t: TrapData)
    ensures BuildList(t, 0).None?
  {}

  lemma FrontLength(t: TrapData)
    ensures |Front(t)| == 2
  {
    TwoSimples(PInt(INTEGER, t.version), POctets(t.community));
  }

  lemma FirstField(t: TrapData, requestID: int)
    requires t.version != 0
    ensures WholeHeader(t, requestID) != [] && WholeHeader(t, requestID)[0] == Simple(PInt(INTEGER, requestID))
  {}

  /** The send of the queue that this one is, with a pool st left for the first build. */
  function SendEvent(name: nat, t: TrapData, replace: bool, retries: int, delay: int, now: int, newId: int,
                     newerId: int, st: Pool.State, memory: bool): Event
  {
    Send(name, t.inform, replace, retries, delay, now, newId, newerId, Build(t, newId, Free(st)).tree.Some?, memory)
  }

  /** queue_and_send_trap for the trap object known to the queue as name. The queue takes the step of a send that
      builds exactly when the slots free after the deletion of the old packet allow a tree. It logs a send exactly
      when sendTo runs; then the log's last entry carries the id the trap holds, and so do the octets on the wire,
      which are those of the second build. Nothing goes out otherwise. */
  method QueueAndSendTrap(queue: InformQueue, trap: SNMPTrap, name: nat, pool: ASNPool, stands: Owner, replace: bool,
                          retries: int, delay: int, now: int, newId: int, newerId: int, memory: bool,
                          connected: bool, delivered: bool, max: nat)
    returns (id: int, wire: Option<bytes>, kept: Option<Owner>, ghost lost: seq<nat>, ghost r: Pool.State)
    requires queue.Valid() && pool.Valid() && trap.PointsTo(pool, stands) && Listable(trap.data)
    requires queue.list as object != pool.slots
    modifies queue, queue.list, trap, pool, pool.slots
    ensures queue.Valid() && pool.Valid() && pool.slots == old(pool.slots)
    ensures var st := PacketDeleted(old(pool.Abs()), old(trap.packet), stands);
            && queue.Abs() == Inform.Step(old(queue.Abs()), SendEvent(name, trap.data, replace, retries, delay, now,
                                                                      newId, newerId, st, memory))
            && pool.doubleReleaseAlarms == st.alarms
    ensures IdOf(queue.ids, name) == trap.requestID
    ensures |queue.log| > |old(queue.log)| ==>
              && id == trap.requestID && trap.packet == None && Grown(r, pool.Abs(), lost)
              && queue.log == old(queue.log) + [queue.log[|queue.log| - 1]]
              && queue.log[|queue.log| - 1].carried == trap.requestID
              && wire == (if connected then SentOctets(trap.data, trap.requestID, Free(r), max) else None)
    ensures |queue.log| <= |old(queue.log)| ==>
              id == INVALID_SNMP_REQUEST_ID && wire == None && queue.log == old(queue.log)
  {
    hide Inv, Build, Grown, Deleted, IsTree, Flat, SentOctets, Between, Without, PacketDeleted;
    var room := HasRoom(queue, replace, name);
    ghost var st := PacketDeleted(pool.Abs(), trap.packet, stands);
    var built, sent;
    built, sent, wire, kept, lost, r :=
      trap.BuildAndSend(pool, stands, newId, newerId, room && memory, connected, delivered, max);
    id := queue.QueueAndSendTrap(name, trap.data.inform, replace, retries, delay, now, newId, newerId, built, memory);
  }

  /** What a retry puts on the wire: the packet of the trap under the id it holds, which is the id its log entry
      carries as long as the queue's ids are those of the trap objects. */
  method Resend(queue: InformQueue, trap: SNMPTrap, item: Item, pool: ASNPool, stands: Owner, connected: bool,
                delivered: bool, max: nat)
    returns (sent: bool, wire: Option<bytes>, ghost lost: seq<nat>)
    requires queue.Valid() && pool.Valid() && trap.PointsTo(pool, stands) && Listable(trap.data)
    requires IdOf(queue.ids, item.trap) == trap.requestID && queue.list as object != pool.slots
    modifies queue`log, trap, pool, pool.slots
    ensures queue.Valid() && pool.Valid() && pool.slots == old(pool.slots)
    ensures queue.log == old(queue.log) + [Sent(Some(item.serial), trap.requestID, item.requestID)]
    ensures trap.requestID == old(trap.requestID) && trap.packet == None && IdOf(queue.ids, item.trap) == trap.requestID
    ensures var st := PacketDeleted(Pool.Step(old(pool.Abs()), Reset), old(trap.packet), stands);
            && Grown(st, pool.Abs(), lost)
            && wire == (if connected then SentOctets(trap.data, trap.requestID, Free(st), max) else None)
            && sent == (wire.Some? && delivered)
  {
    hide Inv, Build, Grown, PacketDeleted, IsTree, SentOctets;
    queue.SendTo(Some(item.serial), item.trap, item.requestID);
    sent, wire, lost := trap.SendTo(pool, stands, true, 0, connected, delivered, max);
  }
}
